# Verified model of the utility library's hard core

The library keeps most of its algorithms in header files: a lock-free ring, a scan in sorted order without sorting, a
growable byte buffer, arithmetic on addresses and prefixes, the Internet checksum, a hash in two forms, a bit-sliced
rule matcher and two kinds of linked lists. This project models them in Dafny and proves what they promise. Check it with
`dafny verify dfyconfig.toml`.

| file | what it models |
|---|---|
| `RingProtocol.dfy` | the lock-free ring as a machine that interleaves the steps of any number of producers and consumers |
| `RingInvariant.dfy` | the invariant of that machine with unbounded counters, kept by every step and so by every run |
| `RingTheorems.dfy` | what follows: conservation, order, exclusive slots, justified refusals, no deadlock, counting |
| `RingCalls.dfy` | every return answers one call, every call is answered once, and a call alone is the sequential operation |
| `RingRefinement.dfy` | the 32-bit program makes the same moves as the unbounded one; the main theorem about the 32-bit program |
| `RingCopy.dfy` | the unrolled and the split copy macros against the simple copy loop |
| `RingBuffer.dfy` | the ring object used by one thread at a time, against a queue |
| `DictOrder.dfy` | the stateless successor and the scan, against a stable insertion sort |
| `VBuf.dfy` | the growable buffer against a byte sequence, and its amortised copying cost |
| `IpRange.dfy` | masks and prefixes, and the two ways of cutting an IPv4 range |
| `In6Prefix.dfy` | IPv6 masks, prefixes and comparison on 16 bytes, against 128-bit numbers |
| `Checksum.dfy` | full, incremental and running checksums |
| `Jhash.dfy`, `JhashVector.dfy` | the word-wise and the byte-wise hash, and the value published for one phrase |
| `Bitmatch.dfy`, `BitmatchRules.dfy` | the matcher, the list of all matches and the filling of the tables, against a scan of the rules |
| `Dll.dfy`, `Dtq.dfy` | the two sentinel-linked lists against sequences of nodes |
| `Bits.dfy` | machine words and bitwise operators on natural numbers |

## How the ring is modelled

A step of `RingProtocol.Next` is one access of one thread to shared memory: the load of the own head, the load of the
opposite tail, the compare-and-swap (or, in single mode, the store) on the own head, the copy of one object, or a turn of
the wait for the own tail. One pair of accesses is merged: the load that ends the wait, the store of the tail and the
return are one step. Between the load and the store nothing can happen that matters, for once a call has its claim at the
tail no step of another thread moves that tail or the call (`RingTheorems.OthersKeepFront`); the returns are recorded in
the order of the stores. A schedule is any sequence of such steps and of new calls, by any number of threads, and
`RingProtocol.Run` is the run of that schedule. A waiting turn of the spin loop is a step that changes nothing. The
parameter `Arith` makes the same text the C program (`Words`: counters and amounts have 32 bits), the same program with
unbounded counters (`Naturals`), or the one between them, with unbounded counters whose differences are cut to 32 bits
(`Wide`). The invariant holds of the last two. The state also records the objects in the order of the producers' claims
(`sent`) and the returns of finished calls (`log`); no step reads them.

What is assumed:

- Steps are sequentially consistent.
- `size` is a power of two of at most 31 bits, `mask` is `size - 1` and `capacity` is at most `size`. (`RING_Init` makes
  it equal to `size`; `NUM_IS2N` and `NUM_To2N` are declared in `num_utl.h`, which is not part of this model.)
- A call in single mode is the only one of its side while it lasts.
- For the 32-bit program (`RingRefinement.NoLap`): while a call sits between its head load and its swap, the head moves on
  by fewer than 2^32 positions. Delivery needs no more, because an amount computed from a stale head moves no object: its
  swap fails. For the amount itself to be the true one the head must move on by fewer than 2^32 - capacity positions
  (`RingRefinement.WrappedDifference`); a call that comes back with nothing is justified under that condition
  (`RingRefinement.WideRefusalJustified`).

## Where the code does something else than it promises

The model follows the code; these are proved, each with its exact condition.

- `RING_Count` masks with `size - 1`, and `RING_Init` makes `capacity` equal to `size`: a full ring counts 0 objects, so
  `RING_Empty` holds of it and `RING_Full` does not (`RingTheorems.CountExactIffNotFull`, `RingBuffer.Ring.Count`).
- `DLL_INSERT_AFTER` passes the expression `DLL_NEXT(list, node)` to a macro that evaluates it again for each assignment.
  By the last one the successor is the new node itself, which becomes its own predecessor: the list is intact exactly when
  the node went to the end (`Dll.Head.InsertAfter`, `Dll.BrokenForGood`).
- `BIT_GetLowIndex64` tests with the int `1 << i`: from bit 31 on it always answers 31 (`Bitmatch.GetLowIndex64`), so the
  matcher reports the first matching rule exactly when that rule lies in the lower half of a whole 64-bit word
  (`Bitmatch.AgreesWithScanIff`; `BitmatchRules.UpperHalfRuleMisreported` has rule 32 of 65 reported as 31).
  `BITMATCH_Create` refuses the numbers of rules that are multiples of 64, so the last rules of every table it makes lie
  in no whole word.
- `_bitmatch_match8` copies the first row whole and then combines whole 64-bit words only: a rule behind the last whole
  word is listed as the first segment alone decides (`BitmatchRules.Match8`). Over all rules of a row the list is exact if
  and only if all segments accept each such rule that the first one accepts (`BitmatchRules.ListExactIff`). Its least
  member is the scan's answer if and only if a rule of the whole words matches, or the first of those later rules matches,
  or there is none of these (`BitmatchRules.LeastListedIsScanIff`). With two segments and 72 rules, rule 64 is listed
  although the second segment rejects it (`BitmatchRules.TailRuleListed`).
- `BITMATCH_AddRule` accepts every rule number below `max_rule_num`, but a row has `max_rule_num / 8` whole bytes: the
  last rules of a number that is no multiple of 8 share their bits with the first rules of the next value
  (`BitmatchRules.TailRuleIsLowRuleOfNextRow`). Adding or deleting a rule does just that if and only if the rule has a
  whole byte, or the bits it reaches instead had the value already (`BitmatchRules.AddedIff`, `BitmatchRules.RemovedIff`).
  With 65 rules, adding rule 64 makes another rule match (`BitmatchRules.TailRuleFalseMatch`), and in the last row its
  byte may lie behind the block (`BitmatchRules.InsideBlockIff`, `BitmatchRules.TailRuleOutsideBlock`).
- `IPList_Range2SubNetList` never ends for a range that ends at 255.255.255.255, because the loop variable wraps to 0
  (`IpRange.EndsUnlessLastAddress`). The macro `IP_SPLIT_SUBNET_BY_MASK` has the same wrap, and the lemma covers it.
- `_vbuf_expand_to` narrows the wanted length to 32 bits and can report success without the room (`VBuf.VBuf.ExpandTo`,
  `VBuf.GrownIff`). An append or a move that reported success leaves an intact buffer if and only if no growth was
  narrowed (`VBuf.VBuf.CatBuf`, `VBuf.VBuf.MoveData`); `VBuf.NarrowedDoubling` is a request that fails, and up to 2^31
  bytes none does (`VBuf.HalfWordFits`).
- `MEM_Malloc` takes a 32-bit size, so `VBUF_CpyBuf` of 2^32 or more bytes that do not fit can report success on a block
  that is too small: after success the buffer is intact if and only if the bytes fitted before or are fewer than 2^32
  (`VBuf.VBuf.CpyBuf`, `VBuf.NarrowedCopy`). An append to an empty buffer is such a copy.
- The 16-bit sums are added in 32 bits. `IN_CHKSUM_AddRaw` and the IP header checksum are right up to 131072 and 131074
  bytes, and of the lengths their parameters express exactly when the sum does not overflow (`Checksum.AddRaw`,
  `Checksum.IpHeader`).
- `IN_CHKSUM_Change` adds in 32 bits. Of the counts two ints can express it is always right for up to 65536 changed words
  and for no larger number (`Checksum.AlwaysRightIff`), and for one update exactly when the accumulator does not overflow
  (`Checksum.Change`). It never returns 0, so it agrees with a full recomputation unless that gives 0
  (`Checksum.ChangeIsRecomputation`), and it is undone by the opposite change unless the checksum was 0
  (`Checksum.ChangeUndone`).

## Other assumptions

- The host is little-endian (`Jhash`, `Bitmatch`, `BitmatchRules`, `Checksum.Loads`): a load of several bytes weighs the
  first one least, and the `&`, `|=` and `&=` of whole words are those of their bytes.
- What a store beyond the end of a block changes is not part of the model: such a store changes nothing in it.
- Sizes of type `ULONG` do not overflow, nor do the offsets and sizes that the matcher computes in `U32` and `int`
  (`_bitmatch_get_bits`, `BITMATCH_Create`) and the ring in `UINT` (`RING_Create`). Whether an allocation
  succeeds is an argument (`memory`) of every operation that may allocate (`VBuf.Malloc`, `Matcher.Create`).
- Comparison functions are total preorders on the elements they are used on, and do not change while a scan or sort runs.
- `NUM_Rol32` is the 32-bit rotation to the left; its header `num_utl.h` and `mem_inline.h` are not part of this model.

## Model

| member | source | states |
|---|---|---|
| RingRefinement.FifoDelivery | h/utl/ring_utl.h:122-243 | for every schedule of the 32-bit program: the objects received by finished dequeues are a prefix of those given to finished enqueues, the rest is read from the slots behind them and is at most `capacity`, every return obeys the FIXED or VARIABLE contract, and every return answers a call that was made, with the arguments it was made with |
| RingCalls.EveryReturnAnswers | h/utl/ring_utl.h:122-243 | in every arithmetic and schedule, each return belongs to a call that one label started: the thread was busy with that call, arguments unchanged, until it left; at one load of the opposite tail it saw an amount, it was granted n of it as its behaviour asks, and it reports the rest of that amount, when refused too |
| RingCalls.AnsweredOnce | h/utl/ring_utl.h:204-243 | no call is answered by two returns |
| RingCalls.NoCallLost | h/utl/ring_utl.h:122-243 | every call that was started is still in progress, with its own arguments, or answered by a return |
| RingCalls.StepKeepsCall | h/utl/ring_utl.h:122-243 | no step changes the arguments of a call or touches another call, and a call leaves only by a return that carries its arguments (a lost swap of a producer starts again with the n of the call) |
| RingCalls.InvokeStarts | h/utl/ring_utl.h:204-243 | a thread without a call can always start one, in single mode if it is alone on its side |
| RingCalls.AloneClaims | h/utl/ring_utl.h:122-188 | whatever the others have left behind, at most five steps of a call alone bring it to its return or its claim, in every arithmetic |
| RingCalls.AloneIsSequential | h/utl/ring_utl.h:122-243 | a call that runs alone from a state with no call of its side in progress does to the queue of published objects what the sequential operation does: exact grant from the true room, objects appended or taken from the front, exact value reported as left, wherever calls of the other side stand |
| RingRefinement.RunAgrees | h/utl/ring_utl.h:122-243 | on every schedule without a lap the state of the 32-bit program is the state of the program with unbounded counters, those counters cut to 32 bits: same claims, same slots, same results; with a margin of `capacity` the amounts need not be cut either |
| RingRefinement.NextAgrees | h/utl/ring_utl.h:122-243 | the same for each single step, from any state of the invariant |
| RingRefinement.WrappedDifference | h/utl/ring_utl.h:137-169 | the 32-bit difference that the head moves compute is the true amount cut to 32 bits, so it is the true amount if and only if that fits 32 bits |
| RingRefinement.WonSwapAgrees | h/utl/ring_utl.h:145-150 | a claim made on 32-bit counters is the claim on unbounded ones |
| RingRefinement.LostSwapAgrees | h/utl/ring_utl.h:148-151 | less than a lap apart, the 32-bit compare-and-swap fails when the unbounded heads differ, nothing changes, and the call, with the arguments it came with, goes back to where its own loop goes on |
| RingRefinement.PublishAgrees | h/utl/ring_utl.h:190-202 | the wait on the 32-bit tail lets the same calls pass as the wait on the unbounded one |
| RingRefinement.WideRefusalJustified | h/utl/ring_utl.h:133-143 | a refusal computed in 32 bits is justified at the instant of the load, unless the head has moved on by 2^32 - capacity positions or more since the call read it |
| RingRefinement.WrappedCount | h/utl/ring_utl.h:317-323 | RING_Count gives the same on 32-bit as on unbounded tails |
| RingProtocol.WrappedSlot | h/utl/ring_utl.h:41 | masking a wrapped counter picks the slot of the unbounded counter |
| RingProtocol.SlotsDiffer | h/utl/ring_utl.h:41 | positions less than one lap apart never share a slot |
| RingInvariant.InitInv | src/lib/util/ring/ring_utl.c:11-29 | a freshly initialised ring satisfies the invariant, whatever its slots hold |
| RingInvariant.RunInv | h/utl/ring_utl.h:122-243 | in every reachable state cons.tail <= cons.head <= prod.tail <= prod.head <= cons.tail + capacity, the claims of a side tile the stretch between its tail and head without overlap, every published object and every object already copied by a producer is in its slot, and the returns so far are the two prefixes of the stream that the tails mark |
| RingInvariant.NextInv | h/utl/ring_utl.h:122-243 | every step of every thread keeps that invariant |
| RingInvariant.LoadTailInv | h/utl/ring_utl.h:133-143 | the amount computed from the opposite tail stays a safe bound for as long as the own head does not move, although the head value may be stale already |
| RingInvariant.WonSwapHasRoom | h/utl/ring_utl.h:145-150 | when the store or the compare-and-swap goes through, the amount computed from the earlier tail load is really there |
| RingInvariant.WonSwapInv | h/utl/ring_utl.h:145-150 | a new claim starts where the claims of its side end and keeps the invariant |
| RingInvariant.CopyInv | h/utl/ring_utl.h:37-94 | a producer's write hits no slot that holds a published or already written object, and a consumer reads the object of its stream position |
| RingInvariant.PublishesInOrder | h/utl/ring_utl.h:194-201 | a call that passes the wait finds its claim at the tail, also in single mode where nothing is waited for |
| RingInvariant.PublishInv | h/utl/ring_utl.h:190-202 | publication keeps the invariant and appends exactly the claimed stretch of the stream to the log |
| RingTheorems.Conservation | h/utl/ring_utl.h:204-243 | objects given = objects received, then objects in the ring: none lost, duplicated, invented or reordered |
| RingTheorems.ReturnsFollowTheStream | h/utl/ring_utl.h:204-243 | each return moved exactly the stretch of the stream that follows those of the earlier returns of its side |
| RingTheorems.ClaimsUseDistinctSlots | h/utl/ring_utl.h:37-94 | no slot is written by two calls, or written while another call reads it |
| RingTheorems.RefusalJustified | h/utl/ring_utl.h:133-143 | a call comes back with nothing only if, at the instant it read the opposite tail, there really were fewer than n entries (FIXED) or none (VARIABLE), even when its head value was stale |
| RingTheorems.GrantWhenRoom | h/utl/ring_utl.h:133-143 | when the room is there at that instant, all n entries are granted |
| RingTheorems.SwapLostOnlyToAClaim | h/utl/ring_utl.h:145-151 | a swap is lost exactly when another call has claimed in between; then the call goes on with its own arguments and nothing else changes; otherwise it owns the entry at the head |
| RingTheorems.SomeoneCanPublish | h/utl/ring_utl.h:194-201 | while a side has unpublished claims, one of them begins at the tail |
| RingTheorems.PublishFront | h/utl/ring_utl.h:190-202 | that call reaches its publication by its own steps alone, and nothing else changes |
| RingTheorems.DrainOne | h/utl/ring_utl.h:190-202 | each publication lowers the number of claimed and unpublished entries |
| RingTheorems.Drain | h/utl/ring_utl.h:190-202 | from every reachable state the calls that have claimed can all be brought to publication without any new claim: no deadlock |
| RingRefinement.DrainWords | h/utl/ring_utl.h:190-202 | the same for the 32-bit program, after every run without a lap |
| RingTheorems.OthersKeepFront | h/utl/ring_utl.h:190-202 | no step of another thread takes the call at the tail back or gets past it |
| RingTheorems.AnySchedulePublishes | h/utl/ring_utl.h:190-202 | every schedule that gives the call at the tail its remaining steps publishes it, whatever the others do |
| RingTheorems.UninterruptedRead | h/utl/ring_utl.h:67-94 | the copy steps of a dequeue, taken in a row, read what the copy macro reads |
| RingTheorems.UninterruptedCopy | h/utl/ring_utl.h:37-64 | the copy steps of the machine, taken in a row, write what the copy macro writes |
| RingTheorems.CountExactIffNotFull | h/utl/ring_utl.h:317-338 | RING_Count is exact, and with RING_FreeCount adds up to the capacity, if and only if the ring does not hold `size` objects; if it does, it counts 0 and all of the capacity is reported free |
| RingCopy.StoreAllPuts | h/utl/ring_utl.h:37-64 | the simple loop puts object i into the slot of position head + i |
| RingCopy.StoreAllKeeps | h/utl/ring_utl.h:37-64 | and touches the slot of no other position of the lap |
| RingCopy.LoadAfterStore | h/utl/ring_utl.h:37-94 | a reader gets the older objects unchanged and then those just stored |
| RingCopy.SplitByFour | h/utl/ring_utl.h:44-50 | `n & ~3` and `n & 3` split n into whole rounds of four and a rest below four |
| RingCopy.PutStraight | h/utl/ring_utl.h:43-57 | the unrolled loop with its falling-through switch is the simple loop |
| RingCopy.PutSplit | h/utl/ring_utl.h:58-63 | the two loops around the end of the slots are the simple loop |
| RingCopy.EnqueuePtrs | h/utl/ring_utl.h:37-64 | RING_ENQUEUE_PTRS is the simple loop for every head and every n up to `size` |
| RingCopy.GetStraight | h/utl/ring_utl.h:73-87 | the same for the unrolled reading loop: the first n table entries are read, the others stay |
| RingCopy.GetSplit | h/utl/ring_utl.h:88-93 | the same for the two reading loops around the end |
| RingCopy.DequeuePtrs | h/utl/ring_utl.h:67-94 | RING_DEQUEUE_PTRS reads what the simple loop reads |
| RingCopy.AfterEnqueue | h/utl/ring_utl.h:204-222 | on 32-bit heads, what was stored stands behind what was queued |
| RingCopy.AfterDequeue | h/utl/ring_utl.h:224-243 | on 32-bit heads, what was read is the front of the queue and the rest remains |
| RingBuffer.Ring.constructor | src/lib/util/ring/ring_utl.c:11-29 | an initialised ring is an empty queue |
| RingBuffer.Ring.MoveProdHead | h/utl/ring_utl.h:122-154 | without interference the grant is that of the true free space, and the head moves by exactly the grant |
| RingBuffer.Ring.MoveConsHead | h/utl/ring_utl.h:156-188 | the same for the entries to take |
| RingBuffer.Ring.DoEnqueue | h/utl/ring_utl.h:204-222 | appends the first n objects of the table, n being all, as many as fit, or none as the behaviour asks; reports the space left |
| RingBuffer.Ring.DoDequeue | h/utl/ring_utl.h:224-243 | moves the n oldest objects to the front of the table and leaves the rest of table and queue alone; reports the entries left |
| RingBuffer.Ring.Count | h/utl/ring_utl.h:317-323 | the number of queued objects, but 0 for a full ring |
| DictOrder.BeforeIsStrictOrder | h/utl/dictorder_utl.h:41-68 | breaking ties by address turns a total preorder into a strict total order |
| DictOrder.GetFirst | h/utl/dictorder_utl.h:17-38 | the element that comes before all others, none for an empty array |
| DictOrder.GetNext | h/utl/dictorder_utl.h:41-68 | the immediate successor of an element, or none if it is the last |
| DictOrder.ArrayScan | h/utl/dictorder_utl.h:70-78 | ends, and visits every element once, in exactly the order of the stable sort |
| DictOrder.StableOrderAscending | h/utl/dictorder_utl.h:70-78 | the reference sort puts the elements in the strict order |
| DictOrder.AscendingIsUnique | h/utl/dictorder_utl.h:70-78 | only one arrangement of the elements is in that order |
| DictOrder.PlaceContinues | src/lib/util/dll/dll_utl.c:10-38 | inserting before the first greater element continues the stable sort |
| VBuf.DoubleUp | h/utl/vbuf_utl.h:64-77 | the doubling loop ends at a size that is enough and less than twice enough |
| VBuf.HalfWordFits | h/utl/vbuf_utl.h:39-77 | no request up to 2^31 bytes loses bits in the narrowing, with or without doubling |
| VBuf.AllocatesUnlessNarrowed | h/utl/vbuf_utl.h:39-86 | a request that is not narrowed takes memory if and only if it does not fit the block |
| VBuf.AppendsCopyLinear | h/utl/vbuf_utl.h:64-254 | with doubling set, any run of appends to an empty buffer copies in all its reallocations together fewer bytes than twice the final length, and reserves less than twice the contents |
| VBuf.GrownIff | h/utl/vbuf_utl.h:39-86 | a growth makes room if and only if the wanted size fits 32 bits or the room was there |
| VBuf.NarrowedDoubling | h/utl/vbuf_utl.h:39-77 | a doubling from 2^31 bytes that succeeds and leaves no room |
| VBuf.NarrowedCopy | h/utl/vbuf_utl.h:209-232 | 2^32 bytes copied into an empty buffer get a block of no byte |
| VBuf.CatAll | h/utl/vbuf_utl.h:234-254 | any run of VBUF_CatBuf calls of at most 2^31 bytes together on an empty doubling buffer stops only at an append that outgrows the block and gets no memory; the bytes appended before, in order, at the cost stated above |
| VBuf.VBuf.constructor | h/utl/vbuf_utl.h:133-136 | an empty buffer with no memory |
| VBuf.VBuf.SetMemDouble | h/utl/vbuf_utl.h:276-280 | sets the policy and keeps the bytes |
| VBuf.VBuf.ExpandTo | h/utl/vbuf_utl.h:39-62 | succeeds if and only if there is memory or the narrowed length is there already; the contents survive growth and failure; success gives the room exactly when the length fits 32 bits or was there before |
| VBuf.VBuf.ResizeDoubleUpTo | h/utl/vbuf_utl.h:64-77 | succeeds if and only if there is memory or the doubled, narrowed size is there already, and takes that size if it is more; the bytes stay the same; failure changes nothing |
| VBuf.VBuf.ResizeUpTo | h/utl/vbuf_utl.h:80-86 | the same under either policy; after success there is room for the length if and only if the growth was not narrowed |
| VBuf.VBuf.MoveData | h/utl/vbuf_utl.h:94-113 | fails only without memory that it needs; after success the data begins at the new offset, and is intact with the same bytes if and only if no growth was narrowed; failure changes nothing |
| VBuf.VBuf.PreCat | h/utl/vbuf_utl.h:115-130 | fails only without memory that it needs, never when the bytes fit the block; after success the bytes are the same, and there is room behind them if and only if no growth was narrowed; it slides before it grows; failure changes nothing |
| VBuf.VBuf.CpyBuf | h/utl/vbuf_utl.h:209-232 | fails if and only if the length does not fit and there is no memory; after success the buffer is intact if and only if the length fitted before or fits the 32 bits of MEM_Malloc, and then its contents are the given bytes; failure changes nothing |
| VBuf.VBuf.CatBuf | h/utl/vbuf_utl.h:234-254 | fails if and only if it needs memory and there is none; after success the buffer is intact if and only if neither a growth nor, on an empty buffer, the allocation was narrowed, and then the bytes are appended, and capacity, length and copied bytes are those the cost theorem counts; failure changes nothing |
| VBuf.VBuf.Cut | h/utl/vbuf_utl.h:335-353 | takes out a stretch, or everything from a place on; from a place beyond the data the buffer stays intact if and only if its block reaches that far |
| VBuf.VBuf.CutHead | h/utl/vbuf_utl.h:355-368 | drops bytes at the front and moves the rest to the start of the block |
| VBuf.VBuf.EarseHead | h/utl/vbuf_utl.h:370-383 | drops bytes at the front and leaves the rest in place, or goes back to the start of the block when nothing is left |
| VBuf.VBuf.CutTail | h/utl/vbuf_utl.h:393-404 | drops bytes at the end |
| IpRange.PrefixMask | h/utl/net.h:34-42 | the mask of a prefix is 2^32 - 2^(32 - prefix) |
| IpRange.Mask2Prefix | h/utl/net.h:50-61 | the number of leading ones |
| IpRange.PrefixOfMask | h/utl/net.h:34-61 | MASK_2_PREFIX undoes PREFIX_2_MASK |
| IpRange.MaskIsValid | h/utl/net.h:64-71 | accepts exactly the 33 prefix masks |
| IpRange.PrefixRange | h/utl/net.h:74-78 | the range of a prefix is the aligned block of its size around the address |
| IpRange.RangeBits | h/utl/net.h:74-78 | for any mask the first address keeps the bits under it and clears the others, and the last one sets them |
| IpRange.IpMask2Range | h/utl/net.h:74-78 | the same of the procedure with two results |
| IpRange.GetMiniMask | h/utl/net.h:109-122 | the longest prefix of at most 31 bits that both addresses share |
| IpRange.GetFirstMask | h/utl/net.h:125-141 | the mask of the largest aligned block that starts at begin and does not pass end |
| IpRange.PeelTiles | src/lib/util/ip/ip_list.c:339-361 | the blocks peeled off a range are aligned and tile it |
| IpRange.TilesCover | src/lib/util/ip/ip_list.c:339-361 | a tiling has each address of the range in exactly one block and no other address |
| IpRange.AtMost62 | src/lib/util/ip/ip_list.c:339-361 | a range splits into at most 62 blocks |
| IpRange.AtMostTwice | src/lib/util/ip/ip_list.c:339-361 | no block size occurs more than twice |
| IpRange.SixtyTwoNeeded | src/lib/util/ip/ip_list.c:339-361 | the range from 0.0.0.1 to 255.255.255.254 has 62 blocks, and no tiling of it has fewer |
| IpRange.PeelIsShortest | src/lib/util/ip/ip_list.c:339-361 | no tiling by aligned blocks is shorter |
| IpRange.EndsUnlessLastAddress | src/lib/util/ip/ip_list.c:339-361 | this loop, and that of IP_SPLIT_SUBNET_BY_MASK for every mask, ends if and only if the range does not end at the last address |
| IpRange.Range2SubNetList | src/lib/util/ip/ip_list.c:339-361 | appends the peeled blocks to the list, in order |
| IpRange.SplitByMask | h/utl/net.h:158-170 | for any mask: ordered pieces that cover the range, each as far as the mask lets it; for a contiguous one each lies within one subnet and, but for the last, goes up to its end |
| In6Prefix.LenToMask | h/utl/socket_in.h:66-93 | for every length 0..128 the mask is the number 2^128 - 2^(128 - length) |
| In6Prefix.GetPrefix | h/utl/socket_in.h:96-113 | the bytes of the conjunction of the two 128-bit numbers |
| In6Prefix.AndOfNumbers | h/utl/socket_in.h:96-113 | conjunction byte by byte is conjunction of the numbers, for any number of bytes |
| In6Prefix.Cmp | h/utl/socket_in.h:116-131 | comparison byte by byte is the order of the 128-bit numbers |
| In6Prefix.PrefixIsInterval | h/utl/socket_in.h:66-113 | an address has prefix p if and only if it lies between p and the last address of its block, for numbers of any width |
| In6Prefix.AddressesOfPrefix | h/utl/socket_in.h:66-131 | the same for byte addresses under mask, prefix and comparison together |
| Checksum.TwoFolds | h/utl/in_checksum.h:75-76 | two folds bring any 32-bit sum into 16 bits, keep its residue modulo 65535, and give 0 for 0 only |
| Checksum.Change | h/utl/in_checksum.h:61-83 | never 0; the old checksum plus what goes minus what comes, modulo 65535, if and only if the 32-bit accumulator does not overflow (for more words than two ints count: overflows a multiple of 65535 times); always so up to 65536 words |
| Checksum.AccumulatorBound | h/utl/in_checksum.h:61-73 | the 32-bit accumulator holds every update of n words if and only if n <= 65536 |
| Checksum.ReturnedIff | h/utl/in_checksum.h:61-83 | the exact condition for the checksum returned by one update |
| Checksum.AlwaysRightIff | h/utl/in_checksum.h:61-83 | every update of n words returns the right checksum if and only if n <= 65536, for every n that two ints can express |
| Checksum.BeyondTheBoundFails | h/utl/in_checksum.h:61-83 | 65537 zero words taken out of a packet with checksum 0 give 1 and not 0xffff |
| Checksum.ChangeKeepsValid | h/utl/in_checksum.h:61-83 | a packet that summed to 0 modulo 65535 still does after the update |
| Checksum.ChangesCompose | h/utl/in_checksum.h:61-83 | updating A to B and then B to C is updating A to C |
| Checksum.ChangeUndone | h/utl/in_checksum.h:61-83 | the opposite update restores the checksum if and only if it was not 0 |
| Checksum.ChangeIsRecomputation | h/utl/csum_utl.h:31-40 | update and full recomputation agree if and only if the recomputation is not 0; otherwise the update gives 0xffff |
| Checksum.Get16bSum | h/utl/csum_utl.h:13-28 | the sum of the 16-bit loads, with an odd last byte alone |
| Checksum.LoadedBytes | h/utl/csum_utl.h:13-28 | each load has the earlier byte low and the later one, or 0 behind the end, high |
| Checksum.SumIsMessage | src/lib/util/in_checksum/in_checksum.c:12-37 | the sum of the words is, modulo 65535, the message read as one number in network order, an odd last byte followed by 0 |
| Checksum.LoadsAreSwapped | h/utl/csum_utl.h:13-28 | the sum of the loads is that sum with the bytes exchanged |
| Checksum.FullCompletes | h/utl/csum_utl.h:31-40 | the checksum, stored in the byte order of the machine, makes the message 0 modulo 65535 |
| Checksum.IpHeader | h/utl/csum_utl.h:31-40 | the checksum that brings the header's sum to 0 modulo 65535, if and only if the carries lost from 32 bits change neither the residue nor whether the sum is 0; for lengths an int expresses: if and only if none is lost; always up to 131074 bytes, and then the message with it is 0 modulo 65535 |
| Checksum.AddRawWord | h/utl/in_checksum.h:19-32 | one-complement addition of one word |
| Checksum.AddRaw | src/lib/util/in_checksum/in_checksum.c:12-37 | the running sum plus the message read as one number, modulo 65535, if and only if the carries lost from 32 bits are a multiple of 65535, for lengths a UINT expresses: if and only if none is lost; always up to 131072 bytes; 0 exactly when the 32-bit sum is 0 |
| Checksum.DelRaw | src/lib/util/in_checksum/in_checksum.c:39-69 | the running sum minus the message read as one number, modulo 65535 |
| Checksum.RemoveUndoesAdd | src/lib/util/in_checksum/in_checksum.c:12-69 | removing what was added gives the sum back, up to the two zeros |
| Jhash.MixIsPermutation | h/utl/jhash_utl.h:19-26 | mixing is a permutation of the three-word state, with a given inverse |
| Jhash.FinalIsPermutation | h/utl/jhash_utl.h:28-36 | so is the final mixing |
| Jhash.RolBit | h/utl/jhash_utl.h:19-36 | the rotation of the mixers takes bit i to bit i + k modulo 32 |
| Jhash.Xor32Bit | h/utl/jhash_utl.h:19-36 | their `^` compares bit by bit |
| Jhash.WordsHoldTheBytes | h/utl/jhash_utl.h:38-73 | the words hashed hold the bytes of the buffer in order, and zeros behind its end |
| JhashVector.PublishedValue | h/utl/jhash_utl.h:17-99 | `Four score and seven years ago` with start value 0 hashes to 0x17770551, the value published for lookup3 |
| Jhash.U32Buffer | h/utl/jhash_utl.h:76-99 | the word form hashes the word sequence |
| Jhash.GeneralBuffer | h/utl/jhash_utl.h:38-73 | the byte form hashes the little-endian words of the bytes, the last one padded with zeros |
| Jhash.Buffer | h/utl/jhash_utl.h:101-108 | one function of the bytes, whichever path is taken |
| Jhash.ThreeWordsForm | h/utl/jhash_utl.h:110-122 | the three-word form is the buffer form on three words |
| Jhash.TwoWordsForm | h/utl/jhash_utl.h:110-127 | the two-word form is the buffer form on two words |
| Jhash.OneWordForm | h/utl/jhash_utl.h:110-132 | the one-word form is the buffer form on one word |
| Bitmatch.RowInBounds | h/utl/bitmatch_utl.h:33-44 | every row lies within the table memory |
| Bitmatch.RowsDisjoint | h/utl/bitmatch_utl.h:33-44 | rows of different segments or values share no byte |
| Bitmatch.GetU64 | h/utl/bitmatch_utl.h:47-51 | bit i of the word at an offset is the bit of rule 64 * offset + i |
| Bitmatch.SegmentsMakeTheByte | h/utl/bitmatch_utl.h:54-124 | for every width the segments of a byte are its digits, the low one first: together they make up the byte |
| Bitmatch.Word2 | h/utl/bitmatch_utl.h:61-75 | bit i of the combined word says whether rule 64 * offset + i accepts every two-bit segment |
| Bitmatch.Word4 | h/utl/bitmatch_utl.h:91-101 | the same for four-bit segments |
| Bitmatch.Word8 | h/utl/bitmatch_utl.h:117-124 | the same for eight-bit segments |
| Bitmatch.GetLowIndex64 | h/utl/bit_opt.h:115-126 | the lowest set bit up to bit 31, 31 for a higher one, -1 for 0 |
| Bitmatch.MatchFirst | h/utl/bitmatch_utl.h:205-216 | the answer of the linear scan of the rules, with a rule in the upper half of its word reported as bit 31; -1 for other widths |
| Bitmatch.AgreesWithScanIff | h/utl/bitmatch_utl.h:205-216 | the answer is the first matching rule of the tables if and only if there is none or it lies in the lower half of a whole word |
| BitmatchRules.Matcher.Create | src/lib/util/bitmatch/bitmatch_utl.c:37-67 | succeeds if and only if the number of rules is no multiple of 64, the width is 2, 4 or 8 and there is memory for both blocks; the tables have the size asked for, which is enough, and no rule accepts anything |
| BitmatchRules.Matcher.AddRule | src/lib/util/bitmatch/bitmatch_utl.c:82-97 | for every rule number below max_rule_num exactly the bits of the rule, or of the low rule one row further on that shares them, are set; for a rule with a byte of its own it accepts the values of its range and no other bit changes |
| BitmatchRules.Matcher.DelRule | src/lib/util/bitmatch/bitmatch_utl.c:99-113 | for every rule number below max_rule_num exactly those bits are cleared in all rows; a rule with a byte of its own accepts nothing any more and no other bit changes |
| BitmatchRules.RuleAcceptsItsRanges | src/lib/util/bitmatch/bitmatch_utl.c:82-97 | a rule added to every segment accepts exactly the data whose segments lie in its ranges; every other rule accepts what it did |
| BitmatchRules.AddNextTable | src/lib/util/bitmatch/bitmatch_utl.c:82-97 | adding the rule to one more segment extends the rule by that segment's range |
| BitmatchRules.DeletedRuleAcceptsNothing | src/lib/util/bitmatch/bitmatch_utl.c:99-113 | a deleted rule accepts no data; every other rule accepts what it did |
| BitmatchRules.TailRuleIsLowRuleOfNextRow | src/lib/util/bitmatch/bitmatch_utl.c:82-113 | a rule beyond the whole bytes of its row has the same bit as one of the first rules in the next row, which after the last value is the first row of the next segment |
| BitmatchRules.TouchedOne | src/lib/util/bitmatch/bitmatch_utl.c:82-97 | which rule bits of the tables have the address a store goes to |
| BitmatchRules.AddedIff | src/lib/util/bitmatch/bitmatch_utl.c:82-97 | adding a rule adds it and changes nothing else if and only if it has a byte of its own or all the bits it reaches instead were set |
| BitmatchRules.AddedToEmptyIff | src/lib/util/bitmatch/bitmatch_utl.c:82-97 | on tables without rules: if and only if it has a byte of its own, or the only row is the last of the last segment, or rows have no byte |
| BitmatchRules.RemovedIff | src/lib/util/bitmatch/bitmatch_utl.c:99-113 | deleting a rule deletes it and changes nothing else if and only if it has a byte of its own or all the bits it reaches instead were clear |
| BitmatchRules.InsideBlockIff | src/lib/util/bitmatch/bitmatch_utl.c:82-113 | the byte of a rule is part of the block if and only if it is its own, or another row follows, or the block is longer than its rows |
| BitmatchRules.BlockEndsWithRowsIff | src/lib/util/bitmatch/bitmatch_utl.c:37-67 | the block that is asked for ends with its last row if and only if the bits the rows drop do not add up to a byte |
| BitmatchRules.TailRuleFalseMatch | src/lib/util/bitmatch/bitmatch_utl.c:82-97 | with 65 rules, adding rule 64 for the value 5 makes rule 0 match the value 6 |
| BitmatchRules.TailRuleFalseMatchFromBlank | src/lib/util/bitmatch/bitmatch_utl.c:37-97 | and does so on the tables that BITMATCH_Create makes |
| BitmatchRules.TailRuleFalseDelete | src/lib/util/bitmatch/bitmatch_utl.c:99-113 | and deleting it takes the value 6 from rule 0 |
| BitmatchRules.TailRuleOutsideBlock | src/lib/util/bitmatch/bitmatch_utl.c:82-97 | with one segment and 65 rules, the byte of rule 64 in the last row is not part of the block |
| BitmatchRules.UpperHalfRuleMisreported | h/utl/bitmatch_utl.h:205-216 | with rule 32 of 65 as the only one, the scan finds 32 and the matcher answers 31 |
| BitmatchRules.Matcher.SetBit | h/utl/array_bit.h:49-52 | sets the bit with the address of the rule, for every rule and row that has that address, if it is part of the block, and no other bit |
| BitmatchRules.Matcher.ClearBit | h/utl/array_bit.h:54-57 | clears that bit and no other |
| BitmatchRules.PlacesDiffer | h/utl/bitmatch_utl.h:33-44 | two rule bits in one byte belong to one row and one group of eight rules |
| BitmatchRules.AndRow | h/utl/array_bit.h:117-123 | conjunction of whole 64-bit words; the bytes behind them stay |
| BitmatchRules.Match8 | h/utl/bitmatch_utl.h:185-202 | of the rules in whole 64-bit words it lists exactly those that accept every segment, of the later ones exactly those that accept the first segment |
| BitmatchRules.ListExactIff | h/utl/bitmatch_utl.h:185-202 | over all rules of a row the list is exact if and only if every later rule that the first segment accepts is accepted by all |
| BitmatchRules.LeastListedIs | h/utl/bitmatch_utl.h:185-202 | the least listed rule is the first match in the whole words or, without one, the first later rule that the first segment accepts |
| BitmatchRules.LeastListedIsScanIff | h/utl/bitmatch_utl.h:110-202 | the least listed rule is the answer of the linear scan of all rules of a row if and only if a rule of the whole words matches, or the first later rule that the first segment accepts matches, or that segment accepts none of them |
| BitmatchRules.MatchFirstIsLeastListedIff | h/utl/bitmatch_utl.h:185-216 | BITMATCH_MatchFirst answers the least listed rule if and only if the first match of the whole words lies in the lower half of its word, or there is none and the first segment accepts no later rule |
| BitmatchRules.TailRuleListed | h/utl/bitmatch_utl.h:185-202 | with two segments and 72 rules, rule 64 is listed when segment 0 accepts and segment 1 rejects it |
| BitmatchRules.TailRuleListedFromBlank | src/lib/util/bitmatch/bitmatch_utl.c:37-97 | adding rule 64 to segment 0 of freshly created tables gives such tables |
| Dll.OneSequence | h/utl/dll_utl.h:18-26 | the pointers determine the members and their order |
| Dll.BrokenForGood | h/utl/dll_utl.h:148-149 | a ring whose back-pointers are off represents no list at all |
| Dll.Join | src/lib/util/dll/dll_utl.c:100-109 | the splice links the two rings into one, in both directions, and empties the source |
| Dll.Head.constructor | h/utl/dll_utl.h:42-45 | an initialised head is an empty list |
| Dll.Head.First | h/utl/dll_utl.h:56-62 | the first member or none |
| Dll.Head.Next | h/utl/dll_utl.h:65 | the next member or none |
| Dll.Head.AddToHead | h/utl/dll_utl.h:86-94 | the node becomes the first member |
| Dll.Head.Add | h/utl/dll_utl.h:109-117 | the node becomes the last member |
| Dll.Head.InsertBefore | h/utl/dll_utl.h:134-146 | the node goes before a member, or to the end |
| Dll.Head.InsertAfter | h/utl/dll_utl.h:134-149 | behind a member, or for NULL in front of all: a scan along the next pointers sees the node there, but the ring stays valid exactly when it went to the end; the count and the head pointers are right in either case |
| Dll.Head.Del | h/utl/dll_utl.h:154-160 | the member leaves the list and points at none |
| Dll.Head.Get | h/utl/dll_utl.h:218-228 | removes and returns the first member |
| Dll.Head.Free | h/utl/dll_utl.h:200-209 | ends; hands each member to the callback once, in order, already taken off the list |
| Dll.Head.Cat | src/lib/util/dll/dll_utl.c:87-112 | concatenation; every moved member points at its new list, the source is empty |
| Dll.Head.InsertSorted | src/lib/util/dll/dll_utl.c:22-36 | the node goes before the first member that is greater |
| Dll.Head.Sort | src/lib/util/dll/dll_utl.c:10-38 | the members in the order of the stable sort |
| Dtq.AddAfter | h/utl/list_dtq.h:101-109 | inserts behind a member, or first |
| Dtq.AddBefore | h/utl/list_dtq.h:111-119 | inserts in front of a member, or last |
| Dtq.Del | h/utl/list_dtq.h:121-127 | takes a member out |
| Dtq.DelHead | h/utl/list_dtq.h:136-150 | takes the first member out, if there is one |
| Dtq.DelTail | h/utl/list_dtq.h:158-172 | takes the last member out, if there is one |
| Dtq.Append | h/utl/list_dtq.h:235-245 | concatenates the rings in four assignments and empties the source |

## Left out

- RingProtocol: the load that ends the wait for the tail and the store of the tail are one step; weak memory orders, cache padding and the layout of the slots behind the header; fairness of the scheduler, so it is proved that every claim can be published, not that a given scheduler gets to it.
- RingTheorems.CountExactIffNotFull: RING_Count loads the two tails one after the other; the model takes them at one instant, as in a quiescent state.
- RingBuffer.Ring.DoEnqueue: one thread at a time, so the compare-and-swap always succeeds; interference is the subject of the other ring files.
- RingCopy.GetStraight: the bodies of the loops are calls of small methods that make one assignment each.
- VBuf.VBuf.CatBuf: what a copy beyond the block does to other memory; the model says when there is one.
- VBuf.CatAll: for at most 2^31 bytes, within which no growth is narrowed.
- IpRange.Range2SubNetList: for ranges that end before 255.255.255.255, on which the loop ends; that allocations of list nodes may fail is left out.
- IpRange.SplitByMask: the same bound.
- In6Prefix.GetPrefix: the four 32-bit conjunctions are taken byte by byte.
- BitmatchRules.Matcher.SetBit: ArrayBit_Set and ArrayBit_Clr load and store the 32-bit word with the bit, in the model one byte. In a row of fewer than four bytes, or at its end, the word reaches into the next row, and at the end of the block beyond it, also for rules with a byte of their own; the other bytes are stored as they were loaded.
- Dll.Head.Sort: the members' comparison is a function of the nodes; what a callback does with a node is left out.
- Dtq.Append: the nodes of Dll are used, whose pointer to a head these queues do not have.
- The matchers that list all rules for segments of two and four bits: they index tables and data differently from the first-match forms.
- BITMATCH_GetRule and BITMATCH_GetRuleBits, and the remaining buffer operations (VBUF_Insert, VBUF_Steal, file input and output).
- DLL_SortAdd and DLL_UniqueSortAdd: one round of the sort with another test.
- IP_GetCommonPrefix, whose shift counts start at 32.
- The wrappers of the ring that fix the mode or the behaviour: each is one call.
- Single-field accessors, atomics, spin locks, byte swaps and everything that talks to sockets, files or the system.
