# Verified model of KNV

KNV is a schema-free Protocol Buffers engine. This project models, in Dafny, the
four parts of it that carry state and arithmetic, and proves what they promise:

* **Splitting and reassembly.** `Packet` holds a packet as the sequence of its
  fields and the operations of `KnvProtocol` as functions of its state;
  `Protocol` holds the object itself, with the loops of `AddPartial` and `Split`,
  each method proved equal to the function. `Splitting`, `Reassembly`, `Transfer`
  and `EndToEnd` prove the law of the protocol: a packet that `Split` cuts into 2
  to 255 parts is rebuilt exactly, whatever `EncodePart` calls came before each
  part and in whatever order, and however often, the parts arrive, if and only if
  there is memory when the last missing one does. `Unsplit` says what `Split`
  decides for every sender and proves the round trip of the packets it keeps whole;
  `Request` does so for the permission and the limit that a request carries.
  `WrappedCount` says what becomes of more parts than the eight-bit count can hold,
  and `Samples` has a sender for each case. `Oidb` is the older frame format beside
  it.
* **The allocator.** `MemPool` and `MemManager` hold one size class and the
  manager of ten as values; `MemHeap` and `Allocator` hold the objects, updated in
  place and proved against the values. Counters are exact over every run, and
  outstanding buffers never share memory. `QuotaExactly` gives, from the pools
  before a call, exactly when it succeeds and by how much it changes the sum of the
  quotas; `QuotaSample` has a run that does.
* **The object pools.** `ObjPool` proves the intrusive lists against mathematical
  sequences; `ObjPoolR` proves the compare-and-swap version as interleaved atomic
  steps of any number of threads.
* **The wire codec.** `Varint` and `Wire` are the format as functions with the
  reference reading of the Protocol Buffers encoding beside it; `PbReader` and
  `PbWriter` are the cursor and the bounded buffer, proved against them.

## Findings

Where the code does not keep a natural promise, the model keeps the code, shows a
run or an input that breaks the promise, and proves the exact condition.

* The part count is kept in eight bits. Every part of a split packet can be encoded
  if and only if there are at most 255 (`EndToEnd.AllPartsSendableExactly`); 30000
  bytes under a limit of 128 make 278 parts, of which the last cannot
  (`Samples.TooManyParts`). What can be sent of 256 to 2495 parts never completes a
  receiver (`WrappedCount.WrappedNeverCompletes`), but for one case: the first packet decodes
  as a complete message, with a fragment for its body, if and only if the number of
  parts is 1 modulo 256 (`WrappedCount.FirstPacketExactly`), as the 257 parts of 27660
  bytes are (`Samples.OneTooMany`, `Samples.FragmentTaken`).
* Part 2495 has the header's own tag. The header child survives the loop of `Split`
  exactly up to 2495 parts; with more, that part takes its place
  (`EndToEnd.SplitHeaderExactly`, `Samples.HeaderLost`).
* The 16 bytes that `Split` sets aside do not cover everything added to a part. A
  packet exceeds the limit exactly when five varint lengths add up to more than the
  header and the part leave (`Transfer.SentPartFits`), by at most four bytes; 100000
  bytes under the default limit of 64000 make a packet of 64001
  (`Samples.OversizedPacket`).
* When there is no memory to merge, the last part has already been put into the tree:
  `AddPartial` returns -9, and from then on refuses every part with -4, so the message
  is lost (`EndToEnd.FailedMergeLosesMessage`). A run of deliveries completes if and
  only if there was memory when the last missing part arrived
  (`EndToEnd.DeliveryCompletesExactly`); `EndToEnd.DeliveryEndsCompleteExactly` is the
  same for the end of the run.
* After completion, the first part that comes again replaces the merged message; the
  receiver is then what a new one would be after the late parts alone
  (`EndToEnd.LateDeliveryLosesMessage`).
* Parts carry no sign of their message. A receiver that holds parts of one takes the
  missing ones from any other message of the same count (`Reassembly.MessagesMix`), and
  the last of them completes it with the mixture (`Reassembly.MixtureCompletes`); parts
  of a message with another count, and complete packets, replace what it holds
  (`Reassembly.RefusedExactly`).
* `Split` removes stale parts only when it cuts. A sender kept whole that already has a
  child with the part tag, which an earlier `Split` may have left, is sent with that
  child for its body; its packet decodes to its children if and only if it has none
  (`Unsplit.SentWholeExactly`, `Samples.OldBodySent`).
* `SetReqSplit(false)` takes the number of removed fields for an error: withdrawing a
  permission that is there removes it and returns -2. It succeeds if and only if there
  was none, and no string has the tag of the limit (`Request.ReqSplitExactly`).
* A memory pool can hand out more than its limit, and `Shrink` can lower the limit below
  what is outstanding and hand over quota it does not have (`MemPool.LimitOverrun`,
  `MemPool.QuotaFromNothing`). A run keeps the limit throughout if and only if no step
  reuses a buffer at the limit or shrinks just above it (`MemPool.RunLimitExactly`), and
  the quota if and only if no allocation overdraws (`MemPool.RunQuotaExactly`).
* `Shrink` hands over quota that a pool does not have exactly when it will release the
  top buffer and less than a buffer's size is left (`MemPool.ShrinkReturnsDrop`). `Alloc`
  changes the sum of the ten quotas if and only if its class is at its limit and such a
  pool is reached before the pools above have given up enough
  (`QuotaExactly.AllocConservesExactly`), by exactly the sizes of those pools
  (`QuotaExactly.AllocDebtExactly`), and a run does if and only if one of its calls does
  (`QuotaExactly.RunConservesExactly`). Calls of `Alloc` and `Free` alone bring that about
  (`QuotaSample.RunMakesQuota`).
* `Shrink`'s release loop never frees more than one buffer: the emptied holder goes on
  top of the free list and is met again (`MemPool.ReleaseAtMostOne`).
* `ObjPoolR::New` compares the head of the list and not its `next`. Over any run of any
  threads the list stays the stack of the winning swaps if and only if no pop wins with a
  stale `next` (`ObjPoolR.ListIsStackExactly`), which one popper at a time ensures; with
  two, an object can be handed out twice (`ObjPoolR.TwoPoppersHandOutTwice`).
* Field numbers of 2^29 and above lose their high bits when written, and field number 0
  with a varint reads as the end of the message; every other field round-trips
  (`Wire.FieldRoundTripExactly`).
* The two lengths of an OIDB frame are added in an int without a check; what is accepted
  is well defined except exactly as `Oidb.UndefinedExactly` says.

## Model

| member | source | states |
|---|---|---|
| `EndToEnd.SplitSendReassemble` | src/protocol.cc:691-999 | For every sender that `Split` cuts into at most 255 parts, every history of `EncodePart` calls before each part, every receiver that is empty, complete or has parts of a message of another count, and every sequence of deliveries with repeats, with or without memory at each: while a part is missing the receiver is incomplete and holds each distinct part once with its bytes; the last part, with memory, makes it the protocol decoded from exactly the bytes `Split` encoded, and without memory returns -9 |
| `EndToEnd.DeliveryCompletesExactly` | src/protocol.cc:691-819 | Over every run of deliveries in any order, with any repeats and any failures of the allocator, the receiver is complete at some point if and only if there was memory when the last missing part arrived |
| `EndToEnd.DeliveryEndsCompleteExactly` | src/protocol.cc:691-819 | And it is complete at the end of the run if and only if, besides, that was the last delivery or the same is true of the deliveries after it |
| `EndToEnd.FailedMergeLosesMessage` | src/protocol.cc:732-780 | After a merge that lacked memory, every further part is refused with -4 and the receiver stays incomplete and unchanged |
| `EndToEnd.LateDeliveryLosesMessage` | src/protocol.cc:705-714 | After completion and any further deliveries the receiver is what a new one would be after those alone; after a single one it is incomplete |
| `EndToEnd.ReassembledIsIntended` | src/protocol.cc:821-956 | Those bytes decode to the sender's children (or header and given body) without the split fields, as a complete protocol |
| `EndToEnd.SplitShips` | src/protocol.cc:821-956 | `Split` succeeds and leaves every slice in the tree under its part tag and the count in the header; the slices are non-empty, all but the last as long as the limit leaves room for, and concatenate to the encoded packet |
| `Transfer.PartIndependentOfHistory` | src/protocol.cc:958-999 | After any calls of `EncodePart`, repeated, misnumbered, negative or out of memory, part i is the same packet |
| `EndToEnd.SentPartsFit` | src/protocol.cc:897-928 | Each sent part is at most the limit plus four bytes, at most the limit for limits up to 16383 and up to 127 parts, and within the limit if and only if its varint lengths fit the allowance |
| `Transfer.SentPartFits` | src/protocol.cc:897-928 | The same for whatever `Split` leaves, after any calls |
| `Transfer.LargePartOverruns` | src/protocol.cc:897-910 | Every full part of 16384 bytes or more is a packet over the limit, when the header was in shortest form |
| `EndToEnd.AllPartsSendableExactly` | src/protocol.cc:910-973 | All parts can be encoded if and only if there are at most 255; the kept count is the true one modulo 256 |
| `WrappedCount.FirstPacketExactly` | src/protocol.cc:970-979 | For up to 2495 parts, the packet of part 0 decodes as a complete message if and only if their number is 1 modulo 256, and then its body is the first slice |
| `WrappedCount.WrappedNeverCompletes` | src/protocol.cc:691-819 | With more than 255 parts, 2 or more modulo 256, no deliveries in any order, number or memory of the parts that can be encoded ever complete a receiver |
| `EndToEnd.SplitHeaderExactly` | src/protocol.cc:931-953 | After `Split` the child with the header's tag is the numbered header up to 2495 parts, and the slice of part 2495 with more |
| `EndToEnd.SplitCorePlain` | src/protocol.cc:834-836 | A packet that is cut carries no error: its header has no split fields, return code zero, and is small |
| `Transfer.RunStaysReady` | src/protocol.cc:958-999 | Every run of `EncodePart` calls with any indices keeps all parts and the header, apart from the index of the last part |
| `EndToEnd.EvaluationSafe` | src/protocol.cc:839-847 | The size that `Split` evaluates with its allowance of 32 bytes is never below that of the packet it would send, so that no packet over the limit is kept whole |
| `EndToEnd.ClearReturnExactly` | src/protocol.cc:488-501 | Encoding with a body leaves a header without return code and message, of which every other field reads as before |
| `Unsplit.SplitExactly` | src/protocol.cc:834-928 | For every sender: the packet stays one part if and only if it must not be split or is within the limit; else -6 exactly when the header leaves no room, and otherwise it is cut and the count kept modulo 256; the limit is between 128 and 64000 |
| `Unsplit.SplitWithoutMemory` | src/protocol.cc:876-887 | Without memory a packet over the limit gives -5, anything else but -5 is what happens with memory, and nothing is cut |
| `Unsplit.WholeRoundTrip` | src/protocol.cc:821-984 | For every sender that `Split` keeps whole, without a child of the part tag: after any calls and for any index that is not too large, the packet of `EncodePart` decodes to the sender's children, to the header alone when that carries an error, or to the header and the body given to `Split` under the body tag; it is complete, and every receiver, whatever it holds, becomes it with code 0 |
| `Unsplit.WholeSent` | src/protocol.cc:970-984 | That packet is the same after any calls, within the limit when the packet may be split, and not sent without memory |
| `Unsplit.SentWholeExactly` | src/protocol.cc:970-984 | Without a body for `Split`, the packet of a sender kept whole decodes to its children if and only if none of them has the part tag |
| `Unsplit.CutRefusedExactly` | src/protocol.cc:921-928 | Cutting gives -7 exactly when the header is no node or has a string under the tag of the count; the object has the count by then |
| `Unsplit.PartRefusedExactly` | src/protocol.cc:986-998 | Sending one of several parts gives -2 exactly without a child of its tag, else -3 exactly when the index cannot go into the header, both changing nothing, and else -6 exactly without memory |
| `Unsplit.ErrorReplyReaches` | src/protocol.h:527-530 | A protocol whose return code is set to any other than zero is encoded as its header alone, which decodes to a complete protocol with that code and no body |
| `Request.ReqSplitExactly` | src/protocol.h:651-679 | `SetReqSplit` succeeds if and only if no string has one of the tags it sets and, to withdraw a permission, there was none; then both fields are as asked for unless a fixed-size number had the tag, and no other field reads differently |
| `Request.RequestReaches` | src/protocol.h:651-679 | The packet decodes to a protocol that may split exactly when that was asked for, with the limit modulo 2^16, and whose limit is the one asked for if and only if that is between 128 and 64000 |
| `Samples.OldBodySent` | src/protocol.cc:970-979 | A request that kept a body from an earlier `Split` is sent with that and not with the body in its tree, whatever the two are |
| `Samples.SampleSplits` | src/protocol.cc:834-912 | Every 300-byte body under an empty header and a limit of 128 is cut into three parts |
| `Samples.TooManyParts` | src/protocol.cc:921-921 | Of the 278 parts of every 30000-byte body under that limit the count is kept as 22 and the last is refused with -1 |
| `Samples.ManyParts` | src/protocol.cc:910-911 | Those are 278 parts |
| `Samples.OneTooMany` | src/protocol.cc:910-911 | Every 27660-byte body under that limit makes 257 parts |
| `Samples.FragmentTaken` | src/protocol.cc:970-979 | Of which the first decodes as a complete message |
| `Samples.HeaderLost` | src/protocol.cc:944-944 | Every 270000-byte body under that limit makes 2501 parts and the tree loses its header |
| `Samples.OversizedPacket` | src/protocol.cc:897-909 | Every 100000-byte body under the default limit of 64000 is sent in two parts, the first a packet of 64001 bytes |
| `Splitting.SlicesAreThePacket` | src/protocol.cc:910-953 | For 0 < part size < length: at least two slices, all non-empty, all but the last full, the last not longer, concatenating to the packet |
| `Splitting.EncodePartMakesPacket` | src/protocol.cc:986-998 | One call yields the packet of header and part and leaves the sender ready for any other part |
| `Splitting.EncodePartAny` | src/protocol.cc:965-998 | The same for any index that is not too large, negative ones included: -2 without a child of that tag, else that child under the header |
| `Splitting.PartPacketDecodes` | src/protocol.cc:316-333 | A part packet decodes to an incomplete protocol with exactly that part, its count and its index |
| `Splitting.PartPacketLength` | src/protocol.cc:506-534 | The exact length of a part packet from the header fields, the count, the index and the slice |
| `Splitting.PartPacketsFit` | src/protocol.cc:897-910 | The size bound for any header length, part size and limit |
| `Splitting.PartFitsExactly` | src/protocol.cc:897-910 | A part packet is within the limit if and only if the varint lengths of count, index, part, header and contents take at most seven bytes more than the old header's, plus what the header lost and the part leaves free |
| `Splitting.LaterPartsLarger` | src/protocol.cc:931-953 | Among parts of one size a later one is no smaller packet, so that the last two of a message decide whether all fit |
| `Splitting.InsertPartsFinds` | src/protocol.cc:931-953 | After the loop each part tag finds its own slice, whatever stale children the tree had |
| `Splitting.HeaderAfterParts` | src/protocol.cc:931-953 | The loop keeps the header child exactly up to 2495 parts |
| `Reassembly.RunHoldsArrived` | src/protocol.cc:699-763 | Over every run of deliveries with repeats in which some part is missing, with or without memory, the receiver holds exactly the distinct parts received, in order of first arrival, and is incomplete |
| `Reassembly.RepeatRefused` | src/protocol.cc:732-739 | A part already held is refused with -4 and nothing changes |
| `Reassembly.MergeCompletes` | src/protocol.cc:748-818 | With every part in the tree the merge hands `assign` exactly the concatenated bytes; without memory it returns -9 and leaves the parts in the tree |
| `Reassembly.MergeOfAnyParts` | src/protocol.cc:748-818 | For any tree, with parts of one message or of several: once the first loop has found a part for every index and the lengths fit an int, the copying loop finds them all again in a buffer that is large enough, so -8, -10, -11 and -12 cannot be returned; without memory it gives -9, -13 exactly when the bytes are no field, and else becomes the protocol they decode to |
| `Reassembly.WrappedSumFails` | src/protocol.cc:748-803 | Parts of 2^31 bytes and more together are never merged: their sum wraps, and gives -8 exactly when it is not positive, else -9 without memory and -12 with it, the parts that fitted being out of the tree |
| `Reassembly.FailedAssignEmpties` | src/protocol.cc:783-814 | When the bytes of the parts are no field, the last missing part gives -13 and leaves the receiver with its header and none of the parts |
| `Reassembly.ScannedAll` | src/protocol.cc:748-763 | The first loop reaches its end if and only if there is a non-empty string for every index |
| `Reassembly.LastPart` | src/protocol.cc:691-819 | The last missing part, after any run of the others: with memory it completes the receiver, without it -9 is returned and the receiver holds every part |
| `Reassembly.StuckForever` | src/protocol.cc:732-739 | A receiver that holds every part unmerged refuses each with -4 for ever |
| `Reassembly.CompletesExactly` | src/protocol.cc:691-819 | A run of deliveries completes the receiver at some point if and only if there was memory at the last missing part |
| `Reassembly.EndsCompleteExactly` | src/protocol.cc:691-819 | The same for the end of the run, over every run |
| `Reassembly.NeverCompletes` | src/protocol.cc:769-814 | Parts whose concatenation does not start with a field never complete a receiver, over any run of their deliveries |
| `Reassembly.ScanStops` | src/protocol.cc:748-763 | The first loop stops at the first index without a non-empty string: it waits when nothing has the tag, and gives -6 for an empty value and -7 for another that is no string |
| `Reassembly.CompletePacketTaken` | src/protocol.cc:699-714 | A complete packet is taken with code 0 by every receiver, which then has exactly its tree |
| `Reassembly.RefusedExactly` | src/protocol.cc:691-739 | For any receiver and packet: -1 for an invalid one; a copy of it when the receiver is empty, complete or of another count, or the packet complete or its index too large; else -2, -3 and -4 exactly as the part is missing, no string or there already, changing nothing |
| `Reassembly.RunStartsAfresh` | src/protocol.cc:699-714 | A receiver that is complete or has parts of a message of another count is, after any deliveries, a new receiver after those |
| `Reassembly.MessagesMix` | src/protocol.cc:705-745 | A receiver with parts of one message, given a part of another of the same count, is in every respect the receiver of the mixture |
| `Reassembly.MixtureCompletes` | src/protocol.cc:747-819 | When that part is the last missing one, the receiver becomes the protocol decoded from the mixture |
| `Reassembly.LatePartReplaces` | src/protocol.cc:705-714 | A part delivered to a complete receiver replaces it and leaves it incomplete |
| `Fields.DecodeTree` | src/protocol.cc:316-333 | An encoded tree, with anything behind it, decodes to a protocol with exactly its children |
| `Fields.SetMetaFacts` | src/protocol.cc:488-492 | Setting the return code makes it read back, keeps every other field's absence and encodability, and bounds the growth |
| `Fields.SetChildExactly` | src/protocol.cc:921-928 | Setting a number is refused if and only if a string has the tag; else the tag finds the number in the type that was there, and no other tag is affected |
| `Fields.ExpandCut` | src/pb.c:149-228 | A node whose bytes are cut expands to nothing if the cut is inside a value, and else to the whole fields before it |
| `Fields.DecodeExactly` | src/protocol.cc:98-130 | Bytes in the KNV format make a protocol if and only if their first field has the packet's tag and a header child; the tree is its children |
| `Fields.CompleteExactly` | src/protocol.h:227-227 | A decoded packet is complete if and only if its header has a return code, or no count modulo 256, or there is a body |
| `Fields.LastMetaCounts` | src/protocol.cc:48-60 | The last field with its tag is the return code modulo 2^32, or the message; one of another type counts as none |
| `Packet.CeilDivIsQuotient` | src/protocol.cc:911-911 | The part count by repeated subtraction is the source's rounded-up quotient |
| `Protocol.KnvProtocol.AddPartial` | src/protocol.cc:691-745 | The method's new state and code are those of `Packet.AddPartial` on the old states |
| `Protocol.KnvProtocol.Merge` | src/protocol.cc:747-819 | The two loops and the assignment compute `Packet.Merge` |
| `Protocol.KnvProtocol.TotalLength` | src/protocol.cc:748-768 | The first loop computes `Packet.ScanParts`, with its 32-bit sum |
| `Protocol.KnvProtocol.GatherInto` | src/protocol.cc:784-808 | The copying loop stays inside the buffer and computes `Packet.GatherParts` |
| `Protocol.KnvProtocol.Assign` | src/protocol.h:257-315 | The receiver becomes a copy of the part with its body looked up |
| `Protocol.KnvProtocol.AssignBytes` | src/protocol.cc:335-349 | The receiver is decoded from the bytes, or left alone with -1 |
| `Protocol.KnvProtocol.Split` | src/protocol.cc:821-895 | The new state and code are those of `Packet.Split` |
| `Protocol.KnvProtocol.SetReqSplit` | src/protocol.h:651-679 | The new state and code are those of `Packet.SetReqSplit` |
| `Protocol.KnvProtocol.CutParts` | src/protocol.cc:910-956 | Numbering and inserting the parts is `Packet.CutParts` |
| `Protocol.KnvProtocol.InsertParts` | src/protocol.cc:931-953 | The loop, at positions i * sz_part, is `Packet.InsertParts` |
| `Protocol.KnvProtocol.EncodeWithBody` | src/protocol.cc:483-569 | The header loses its return code and message and is encoded with the body |
| `Protocol.KnvProtocol.EncodePart` | src/protocol.cc:958-999 | The new state, code and bytes are those of `Packet.EncodePart` |
| `Oidb.FrameRoundTrip` | src/protocol.cc:200-266 | Every frame, whatever follows it, comes apart into exactly its header and body, as one compatible body if and only if the body does not start EA DA; empty ones too |
| `Oidb.AcceptedIsFrame` | src/protocol.cc:207-225 | Whatever is accepted is the frame of the slices it yields, up to its first byte |
| `Oidb.AcceptedExactly` | src/protocol.cc:206-225 | A buffer is accepted if and only if the two lengths in it, added without wrapping, end at an end marker within it, whatever its first byte |
| `Oidb.UndefinedExactly` | src/protocol.cc:212-216 | The code reads outside the buffer if and only if the two lengths overflow an int and the resulting total passes the two tests |
| `Oidb.UndefinedFrame` | src/protocol.cc:212-216 | A frame of ten bytes for which it does |
| `Oidb.EncodeCompat` | src/protocol.cc:455-481 | The buffer is filled with exactly the frame |
| `Oidb.FormatsApart` | src/protocol.cc:316-333 | No encoded packet starts like a frame and no frame decodes as a packet |
| `MemPool.CountersExactOverRuns` | src/mem_pool.cc:18-144 | Over every run of allocations, frees, shrinks and quota moves the counters equal the class size times the outstanding and the full free holders; BAD1, BAD3, BAD4 and SZ_TOTAL_BAD are never reported |
| `MemPool.ReleaseAtMostOne` | src/mem_pool.cc:104-134 | On any pool the release loop frees the top buffer or nothing, and exactly when each bug is reported |
| `MemPool.ShrinkReturnsDrop` | src/mem_pool.cc:81-144 | The value returned is the drop of the quota if and only if the pool before the call is not about to release its top buffer with less than its size of quota left, else it is that size too much; a pool within quota never is, and stays within quota |
| `MemPool.AllocSucceedsExactly` | src/mem_pool.cc:18-64 | `Alloc` succeeds if and only if there is a holder, and it has a buffer or another fits the limit and malloc gives one; it reports the limit if and only if only that stands in the way; one more buffer is out exactly when it succeeds |
| `MemPool.ShrinkExactly` | src/mem_pool.cc:81-144 | With room to spare `Shrink` gives up the largest multiple of the class size within half the unallocated quota, else with too many free it releases the top buffer and gives up its size, else nothing changes |
| `MemPool.HoldersKept` | src/mem_pool.cc:18-144 | No holder is lost: listed and outstanding ones are as many as before each call, and one more when `Alloc` made one |
| `MemPool.AllocQuotaExactly` | src/mem_pool.cc:18-64 | A pool within quota stays so except exactly when it mallocs while free buffers fill the quota |
| `MemPool.AllocLimitExactly` | src/mem_pool.cc:29-62 | `Alloc` keeps the limit on outstanding bytes except exactly when a buffer is reused at the limit |
| `MemPool.ShrinkLimitExactly` | src/mem_pool.cc:99-143 | `Shrink` keeps it except exactly when it releases the top buffer with less than that above the outstanding bytes |
| `MemPool.RunLimitExactly` | src/mem_pool.cc:18-144 | A run keeps the limit throughout if and only if no step is one of those two |
| `MemPool.RunQuotaExactly` | src/mem_pool.cc:18-144 | A run keeps outstanding plus free bytes within the quota throughout if and only if no allocation mallocs while free buffers fill the quota |
| `MemPool.OrderlyRunsStayWithinQuota` | src/mem_pool.cc:18-144 | Runs in which no `Shrink` leaves full holders below an emptied one stay within quota |
| `MemPool.LimitOverrun` | src/mem_pool.cc:51-62 | A run after which 128 bytes are outstanding under a limit of 64 |
| `MemPool.QuotaFromNothing` | src/mem_pool.cc:135-143 | A run after which `Shrink` hands over 64 bytes from a quota of zero |
| `MemPool.AlignIsMultiple` | src/mem_pool.cc:90-90 | Rounding down by subtraction is rounding to a multiple of the class size |
| `MemManager.AllocConservesQuotas` | src/mem_pool.cc:203-303 | The ten quotas sum to what they were plus exactly the excess, which is positive if and only if some `Shrink` reported SZ_MAX_BAD, however many pools are shrunk or created |
| `MemManager.QuotasConservedWithinQuota` | src/mem_pool.cc:252-303 | When every pool is within quota the sum is unchanged |
| `MemManager.RunConservesQuotas` | src/mem_pool.cc:252-314 | The same over every run of `Alloc` and `Free`, with exact counters throughout |
| `QuotaExactly.AllocDebtExactly` | src/mem_pool.cc:203-303 | That excess is the sum of the sizes of the pools that owe and are reached, computed from the state before the call |
| `QuotaExactly.AllocConservesExactly` | src/mem_pool.cc:252-303 | `Alloc` leaves the sum of the quotas unchanged if and only if its class is not at its limit, or no pool that owes is reached before the pools above have given up enough |
| `QuotaExactly.AllocGotExactly` | src/mem_pool.cc:252-303 | `Alloc` of a class succeeds if and only if it has or can get a pool and a holder that has a buffer, or malloc gives one and it fits the limit, raised by what the other pools give up when the class is at it; all from the state before the call |
| `QuotaExactly.AllocOutExactly` | src/mem_pool.cc:252-303 | One more buffer of the class is outstanding exactly when the call succeeds, and as many as before in every other class |
| `QuotaExactly.RunDebtExactly` | src/mem_pool.cc:252-314 | Over every run the sum grows by exactly the debts of its calls, each in the state before it |
| `QuotaExactly.RunConservesExactly` | src/mem_pool.cc:252-314 | A run of `Alloc` and `Free` leaves the sum unchanged if and only if no call of it overdraws |
| `QuotaSample.RunMakesQuota` | src/mem_pool.cc:135-143 | A run of `Alloc` and `Free` after which SZ_MAX_BAD was reported and the quotas sum to 64 bytes more |
| `MemHeap.UcMemPool.Alloc` | src/mem_pool.cc:18-64 | The objects follow the value model; a returned holder was not outstanding before and now is |
| `MemHeap.UcMemPool.Free` | src/mem_pool.cc:66-78 | The holder leaves the outstanding ones and goes on top of the free list |
| `MemHeap.UcMemPool.Shrink` | src/mem_pool.cc:81-144 | The objects follow the value model; outstanding holders are untouched |
| `MemHeap.UcMemPool.ReleaseLoop` | src/mem_pool.cc:104-134 | The loop is `MemPool.Release`, without BAD3 or BAD4 |
| `SizeClass.GetMagic` | src/mem_pool.cc:167-201 | For any increasing table the search ends with the least class holding the request, and -1 only above the largest |
| `Allocator.UcMemManager.Shrink` | src/mem_pool.cc:218-249 | The two loops follow the value model and leave every outstanding buffer alone |
| `Allocator.UcMemManager.Alloc` | src/mem_pool.cc:252-303 | A pooled request succeeds if and only if `QuotaExactly.Succeeds` holds before it; the result is newly outstanding, of the least class, at least as large as asked, and besides it exactly the same buffers are outstanding, each with its memory; a larger request bypasses the pools and fails if and only if `new` does |
| `Allocator.UcMemManager.Free` | src/mem_pool.cc:305-314 | The holder leaves its pool's outstanding ones; nothing else changes |
| `Allocator.UcMemManager.BuffersApart` | src/mem_pool.cc:252-314 | In every valid manager two outstanding holders have different blocks, each as large as asked |
| `ObjPool.ObjPool.New` | src/obj_pool.h:60-84 | The top of the free list or a new object, alone and in no list |
| `ObjPool.ObjPool.Delete` | src/obj_pool.h:86-94 | The object is prepended to the free list |
| `ObjPool.ObjPool.NewBack` | src/obj_pool.h:96-131 | The list is appended to; `first->prev` is the tail, every other `prev` the predecessor, all lists and the free list disjoint |
| `ObjPool.ObjPool.NewFront` | src/obj_pool.h:133-166 | The list is prepended to, with the same invariant |
| `ObjPool.ObjPool.DeleteFrom` | src/obj_pool.h:170-195 | The object is removed from the list wherever it stands and prepended to the free list |
| `ObjPool.ObjPool.Detach` | src/obj_pool.h:197-218 | The object is removed from the list and belongs to no list |
| `ObjPool.ObjPool.AddToFreeList` | src/obj_pool.h:220-225 | The whole list, in order, is prepended to the free list |
| `ObjPool.ObjPool.DeleteAll` | src/obj_pool.h:227-240 | Every object of a non-empty list is released and the list spliced in order onto the free list |
| `ObjPool.SplicedApart` | src/obj_pool.h:220-240 | Splicing a list onto the free list keeps all live lists and the free list pairwise disjoint and free of repeats |
| `ObjPoolR.PoolIsLinearizableStack` | src/obj_pool_r.h:62-107 | Over every run of any number of threads with a single popper, objects being handed between threads and freed by any of them, the free list in memory is the acyclic stack built by the winning swaps, and every object is on it or held by one thread |
| `ObjPoolR.ListIsStackExactly` | src/obj_pool_r.h:62-264 | Over every run of any threads, poppers included, the list in memory is throughout the stack of the winning swaps if and only if no pop wins with a stale `next` |
| `ObjPoolR.PushEndsByWinning` | src/obj_pool_r.h:94-107 | Over every run of any threads a `Delete` or `AddToFreeList` that has begun ends only by a winning swap of its thread, after which all its objects are the pool's |
| `ObjPoolR.EveryPushWins` | src/obj_pool_r.h:94-107 | The same of every call, from the step that begins it |
| `ObjPoolR.IdleStays` | src/obj_pool_r.h:62-107 | A thread becomes busy only by beginning a call itself |
| `ObjPoolR.NewEndsWithObject` | src/obj_pool_r.h:62-92 | Over every run a `New` ends only with the object it got, or because `new` failed on an empty list |
| `ObjPoolR.AloneFinishes` | src/obj_pool_r.h:62-107 | From every state of the invariant, a thread that runs alone finishes its call within six steps |
| `ObjPoolR.PopSwapExactly` | src/obj_pool_r.h:66-78 | A winning pop takes exactly the top off if and only if the `next` it read is still the top's |
| `ObjPoolR.OtherThreadFrees` | src/obj_pool_r.h:94-107 | For any two threads and any object there is a run in which one gives back what only the other got from `New` |
| `ObjPoolR.PopHandsOutFreeObject` | src/obj_pool_r.h:62-78 | A winning pop hands out the top of the stack, which nobody holds |
| `ObjPoolR.StepKeepsInv` | src/obj_pool_r.h:62-264 | Each atomic step but a stale pop keeps the invariant and changes the stack only by a winning swap |
| `ObjPoolR.TwoPoppersHandOutTwice` | src/obj_pool_r.h:66-78 | For any two threads and objects there is a run in which a second popper is about to be handed an object the first still holds |
| `Varint.DecodeMeetsReference` | src/pb.c:80-100 | The decoder yields a value and length if and only if the bytes are one terminated varint of at most ten bytes with that value modulo 2^64 |
| `Varint.RoundTrip` | src/pb.c:291-309 | Every 64-bit number, written, reads back with nothing behind it touched |
| `Varint.Shortest` | src/pb.c:80-100 | No varint that reads as a number is shorter than the written one |
| `Wire.MessageRoundTrip` | src/pb.c:192-228 | Writing any list of encodable fields and iterating yields that list, then end of message |
| `Wire.FieldRoundTripExactly` | src/pb.c:312-334 | A field reads back as itself if and only if its number is below 2^29 and it is not number 0 with a varint |
| `Wire.PredictionMatchesWriter` | src/pb.h:119-146 | The evaluated length is the number of bytes written |
| `Wire.Normalisation` | src/pb.c:149-178 | Re-encoding any decoded field is not longer, and decodes to the same field if and only if that is encodable |
| `Wire.NormaliseMessage` | src/pb.c:192-228 | Decoding and encoding any message is never longer, and idempotent when its fields are encodable |
| `Wire.EomExactly` | src/pb.c:149-228 | Over any bytes, the iteration signals the end of the message if and only if what is left where it stops is at most ten bytes that all continue, so nothing or a key cut short, or starts with a zero key |
| `Wire.CutMessage` | src/pb.c:149-228 | A written message cut at any byte yields its whole fields, and signals the end exactly when the cut is not behind a key and before the end of its value |
| `Wire.FailureExactly` | src/pb.c:149-178 | The code and the cursor of every failure, from the bytes |
| `Wire.FailedSkip` | src/pb.c:112-190 | Where skipping fails, with -1, decoding fails too and the cursor is left at the same place |
| `Wire.TruncatedFails` | src/pb.c:149-178 | No proper prefix of a written field reads as a field |
| `Wire.SkipAgreesWithDecode` | src/pb.c:112-190 | Where a value decodes, skipping ends at the same place; the skips that succeed where decoding fails are of exactly two kinds |
| `PbReader.PbField.DecodeVarint` | src/pb.c:80-100 | The loop computes `Varint.Decode` of the window and moves the cursor by what it read |
| `PbReader.PbField.DecodeTag` | src/pb.c:149-178 | One field of the window or the error, and the end-of-message flag |
| `PbReader.PbField.Begin` | src/pb.c:192-202 | The first field; the end position is fixed and strings lie inside the message; a negative length delivers nothing and signals no end |
| `PbReader.PbField.BeginDelimited` | src/pb.c:206-221 | The length prefix becomes the end position; otherwise nothing is delivered, no end is signalled and the cursor is behind what was read |
| `PbReader.PbField.Next` | src/pb.c:223-228 | The next field: the end position stays, a success consumes at least two bytes |
| `PbReader.PbField.SkipField` | src/pb.c:130-190 | Skipping computes `Wire.SkipValue` |
| `PbReader.ReadMessage` | src/pb.c:192-228 | The whole iteration ends and yields `Wire.ReadFields` |
| `PbWriter.EvalVintLength` | src/pb.h:119-128 | The loop computes the length of the varint |
| `PbWriter.FillScratch` | src/pb.c:291-309 | The scratch buffer of ten bytes is never overrun and holds the encoding |
| `PbWriter.EmittedIsPrefix` | src/pb.c:319-334 | A field that does not fit leaves a proper prefix of its encoding within the buffer |
| `PbWriter.EmittedExactly` | src/pb.c:319-334 | And that is the longest of its key, its key with a string's length, and nothing, that fits; the code tells which |
| `PbWriter.FitsExactly` | src/pb.c:319-334 | Success, the evaluated length and the bytes written agree |
| `PbWriter.PbBuff.AddFieldVal` | src/pb.c:319-334 | A field is written if and only if its evaluated length is at most what is left, and then whole |
| `PbWriter.WriteMessage` | src/pb.c:319-340 | Writing a list of fields succeeds if and only if all of it fits, and then writes exactly its encoding; otherwise a prefix of it |

## Conventions

* Memory failures, `new` failures and the byte behind a buffer are parameters.
* Host words are little-endian. Lengths the source keeps in an `int` are below 2^31.
* A header with fields numbered 2^29 or above cannot be written back unchanged, so the
  end-to-end theorems take headers whose fields are encodable and whose return code is
  the one the protocol object holds, as decoding leaves it.
* `EvaluateSize` is taken to be the serialised size, as `Encode` relies on.
* Products and quotients by a variable are spelled as repeated addition or subtraction;
  lemmas tie each to the operator.

## Left out

- KnvNode: hashing, keys, parent links, sub-tree queries and the cached sizes; a node is the sequence of its fields, and of several children with one tag the first is found, where the hash table may find another. Serialising a changed header writes its metas (field numbers up to 10) first, which the model does not reorder; lookups and sizes do not depend on it.
- Packet.GatherParts: the exits -10 and -11 of the copying loop are joined with -12; the first two are never reached (Reassembly.MergeOfAnyParts).
- Packet.Split: node-allocation failures (-2 to -4, -8, -9) are not modelled. From 2496 parts on the object's header pointer dangles, which the model does not have: what it says of a header after that is about the child with the header's tag.
- Unsplit.WholeRoundTrip: a body given to `Split` for a tree that has a child with the part tag already is not covered, since which of the two `EncodePart` finds depends on the hash table.
- Fields.DecodeExactly: buffers that start with STX go to the OIDB reader, which is module Oidb.
- Unsplit.ErrorReplyReaches: setting the return code on a header that is no node is not modelled.
- Packet.AddPartial: of the allocations only that of the merge buffer is modelled. Insertion failure (-5) is not, nor is a node that `assign` cannot allocate, which returns -13 after the copying loop has taken every part out of the tree. Parts are copied (own_buf), so buffers shared with the part are not modelled.
- Oidb.Parse: node-construction failures and the expansion of a body collection are not modelled; reads outside the buffer are one undefined result.
- EncodeOidb and EncodeAllOidb: the other two frame writers; the second returns one byte less than it writes.
- MemPool.Alloc: counters are unbounded, so 64-bit wrap-around is not modelled; the alignment mask is rounding down, which it is for the power-of-two classes.
- MemManager.ShrinkAt: `new` inside the shrinking loop is taken to succeed; no branch that depends on it is reachable there.
- ObjPoolR.Apply: sequentially consistent memory; the list operations other than the free list are those of ObjPool and not repeated.
- ObjPool.ObjPool.DeleteAll: an empty list is excluded, since the source dereferences the null list; the destructor is not modelled.
- pb_int2uint and pb_uint2int map signed to unsigned numbers and back; pb_add_varint to pb_add_fixed64 write a tag and one value of a fixed type; the request cursors and the domain functions look children of a packet up by tag. None of them is modelled.
- Error-message strings, monitoring counters, printing, response addresses, sockets and the command-line tools.
