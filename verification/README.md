# Verified model of the Self Boot Engine firmware core

This project models the parts of the OpenPOWER Self Boot Engine (SBE) firmware and of its
build and trace tools where most of the state and arithmetic is, and proves what they
promise. `dafny verify dfyconfig.toml` checks all of it.

* **Command dispatch** (`InterruptSources`, `Dispatch`, `DispatchInvariant`,
  `DispatchTheorems`, `DispatchRequests`, `DispatchGap`). The interrupt handler, the receiver
  thread and the processor thread as a step relation over the interrupt enables, the three
  source masks, the two semaphores and the two program counters. In every reachable state
  each host interface has exactly one owner, so no request is lost or served twice; the
  chip-ops that run are exactly the allowed commands read, in order, and every fenced request
  is answered by the receiver; without new interrupts every run drains to idle. The code enables the FIFO data and the FIFO reset interrupt in
  two calls. The model keeps both calls: the invariant survives a run exactly when no
  data interrupt is taken between them, and from every such gap an interrupt there can go
  on to the firmware's assertion.
* **Base image compression** (`Bytes`, `CompressedImage`, `Compression`, `Decompression`,
  `CompressionLimits`). The packer, and the unpacker over any memory. Unpacking restores an
  image, whatever follows its file, exactly if the image is a whole number of words, has at
  least 256 different ones and at most 2^39 - 256 bytes; the packer's dictionary is the best
  one of at most 256 words.
* **Trace converter** (`TraceTime`, `TraceBuffer`, `TraceEntry`, `TraceConverter`,
  `TraceLog`, `TraceWriter`, `TraceChain`). The backward walk through the circular buffer of the embedded core, 64-bit
  times from 32-bit stamps, the converted entries filled in from the end, and the shift.
  The trace calls of the embedded core are modelled too, with the clipping of binary data in
  small buffers: the walk finds what was traced exactly if nothing it meets was clipped.
* **Secure memory regions** (`MemRegions`). The table of open regions and the access check
  that hops from region to region, with the code's wrapping arithmetic.
* **Security lists** (`SecurityTables`, `SecurityGen`, `SecurityCounts`, `SecurityDump`,
  `SecurityCodes`, `SecurityChain`). The build step that turns a list of registers into
  three indexed tables, the lookup in them, the dump of all lists to the host, what the
  dump reports, and the host's loader. Listed registers, firmware lookup and host lookup
  agree for every address.
* **Streams and frames** (`MemAccess`, `Fifo`, `Response`, `HostFfdc`). Granule-wise memory
  access under a budget per setup, the FIFO dequeue and enqueue, the response frame and the
  failure data package over the FIFO and over the host interface.
* **Jenkins hash** (`JenkinsHash`). The word version computes what the byte version does,
  and the mixing step is invertible.

## Conventions and assumptions

Integers are unbounded; widths, wrap-around and truncation are written out. Fixed masks
and shifts are written as division and remainder. Hardware answers (FIFO polls, memory
contents, granted budgets, failures) are parameters that the claims range over.

Dispatch: the receiver has the higher priority, so the processor moves only while the
receiver is blocked; an interrupt can come between any two steps and its handler runs as
one step; the S0 interface is compiled out; PK and SCOM failures lead to a halted state
that takes no further step; chip-op bodies return.

Dispatch, size of steps: a thread looks at all the source bits it chooses by in one step, and
the processor copies a header and sets its own bit in one. A source bit that a thread waits
for is cleared by threads only, so an interrupt between two such reads can only add a bit.

Compression: a run of the unpacker over a given memory either does not end, because the 32-bit
counter of the bitmap loop, which runs in pairs, never meets its bound; or comes within eight
bytes of the end of that memory; or writes certain bytes. The array of bitmap words has an
even number of slots, because that loop stores in pairs. With fewer than 256 different words
the dictionary is shorter than the 1024 bytes the unpacker takes for it, and the last code is
read from behind the file. Which of equally frequent words come first is left open.

Trace converter: buffers of at least one footer, a non-zero frequency, big entries with at
most 64 parameters (what the local buffers hold) and no entry larger than the buffer. The
trace calls are modelled for buffers of 64 to 32768 bytes, and big ones with one to four
parameters, as the trace macros pass. At the firmware's own size of 256 bytes binary data
above 128 bytes is clipped while the footer keeps its length; the walk then steps back too
far. The code clears bit 28 of the upper time word; the model does too, and the newest time is the
true one exactly when that bit is clear. A complete big entry keeps one word more than its
parameters fill, and padding of binary data is not written: those bytes are whatever the
previous entry left in the converter's local buffer, and the model carries them along.

Memory regions: regions end below 2^64; they may be empty or have no mode, since the host
can open such ones. The access check returns exactly if the request does not stall: it stalls
when it starts at zero, no open region holds its start with sizes that add up, and the last
open region detected is an empty one at zero that shares a mode bit. Sizes whose 32-bit sum
wraps are allowed; there the code differs from its description, and the claims say exactly
where.

Security lists: the generator's running counts must fit the fields of the firmware's
tables (8 bits in table 1, 16 bits in table 2); the model answers `Overflow` exactly for the
lists whose counts do not. In the generator `range_val[-1]&0xFF00 >> 8` means
`range_val[-1] & 0xFF` in Python, the end of the range and not its start; the model follows
the code. The claims about the dumped bytes assume that no transfer fails; what the dump
reports when transfers fail is modelled over the answers of the transfers alone, because a
failed transfer only leaves the innermost loop and the code of a later loop replaces its
code.

Jenkins hash: the hash functions take the mixing step as a parameter, so their equality
holds for every mixing step.

## Model

| member | source | states |
|---|---|---|
| InterruptSources.BitOperations | src/sbefw/core/sbeexeintf.H:117-167 | setting, clearing and testing a bit of a mask byte are the operations on the set of sources the byte stands for |
| InterruptSources.IntrHandle.SetIntrSource | src/sbefw/core/sbeexeintf.H:121-134 | adds one source to the named handler's mask and changes no other |
| InterruptSources.IntrHandle.ClearIntrSource | src/sbefw/core/sbeexeintf.H:136-155 | removes one source from the named mask, or from all three |
| InterruptSources.IntrHandle.IsSourceSet | src/sbefw/core/sbeexeintf.H:157-168 | tells whether the source is in the named mask; never for the all-handlers value |
| DispatchInvariant.InitInv | src/sbefw/core/sbemain.C:108-124 | the start-up state, with both semaphores empty and all interrupts enabled, satisfies the invariant |
| DispatchInvariant.IrqDataKeeps | src/sbefw/core/sbeirq.C:53-103 | a FIFO data interrupt keeps the invariant if and only if it does not fall between the two enables |
| DispatchInvariant.RecvKeeps | src/sbefw/core/sbecmdreceiver.C:61-325 | every step of the receiver keeps the invariant |
| DispatchInvariant.ProcKeeps | src/sbefw/core/sbecmdprocessor.C:305-426 | every step of the processor keeps the invariant |
| DispatchInvariant.StepKeeps | src/sbefw/core/sbecmdreceiver.C:275-276 | a step of the whole protocol keeps the invariant if and only if it is not a data interrupt between the two enables |
| DispatchTheorems.RunKeeps | src/sbefw/core/sbecmdreceiver.C:61-325 | the invariant holds in every state of every timely run |
| DispatchTheorems.RunKeepsExactly | src/sbefw/core/sbecmdprocessor.C:413-415 | the invariant holds throughout a run if and only if the run is timely |
| DispatchTheorems.RunSafe | src/sbefw/core/sbecmdprocessor.C:326-416 | over every timely run each interface has exactly one owner, no assertion fires, every wake-up of either thread finds a source bit, semaphores stay at two tokens or fewer, and the processor serves at most one interface |
| DispatchTheorems.HeaderStable | src/sbefw/core/sbecmdreceiver.C:87-149 | no step changes an interface's header while its request is queued or being served |
| DispatchTheorems.NothingLost | src/sbefw/core/sbecmdreceiver.C:280-320 | over every timely run the processor loads exactly the posted requests in order, at most one still queued, and every interrupt but at most one per interface has been answered |
| DispatchRequests.PostedAreRequests | src/sbefw/core/sbecmdreceiver.C:191-290 | over every timely run the requests handed to the processor are exactly those read that it has to see, in order: an allowed command as clean, a command outside the table and a read out of sequence as bad, a fenced command not at all |
| DispatchRequests.PostedWasRead | src/sbefw/core/sbecmdreceiver.C:156-245 | every posted header stems from a read: a clean one from an allowed command of the table, the others from what their status says |
| DispatchRequests.RanIsServed | src/sbefw/core/sbecmdprocessor.C:372-394 | the processor runs the clean requests it loads, once each and in order, and no others |
| DispatchRequests.RanAreAllowed | src/sbefw/core/sbecmdprocessor.C:372-394 | the chip-ops run are the allowed commands read, in order and without a gap, and all of them once the protocol is at rest |
| DispatchRequests.NoneFencedRuns | src/sbefw/core/sbecmdreceiver.C:222-243 | no chip-op runs that was not read as an allowed command of the table |
| DispatchRequests.ReadDecides | src/sbefw/core/sbecmdreceiver.C:191-325 | when the receiver waits again after a read, whatever interrupts came in between: allowed commands, unknown commands and reads out of sequence are posted as such and not answered; a fenced command is answered, not posted, and its interrupt enabled; a reset seen is done and the interrupts enabled; after a failed access it never waits again |
| DispatchTheorems.StuckOnlyWhenIdle | src/sbefw/core/sbecmdprocessor.C:400-416 | when no thread can move, all masks are zero, all interrupts are enabled and everything is answered |
| DispatchTheorems.Drains | src/sbefw/core/sbecmdprocessor.C:400-416 | without further interrupts every run from a reachable state has a bounded length, and where it rests the protocol is idle |
| DispatchGap.UntimelyRunAsserts | src/sbefw/core/sbecmdprocessor.C:326-340 | the gap is reachable, so from every start some run reaches the processor's unexpected-interrupt assertion |
| DispatchGap.GapAsserts | src/sbefw/core/sbecmdprocessor.C:413-415 | from every state between the two enables whose receiver is not about to halt, a data interrupt has a continuation on which the processor asserts |
| CompressedImage.PayloadCode | src/boot/sbeCompression.py:122-131 | where the code of each word lies in the payload |
| CompressedImage.BitsValueAt | src/boot/sbeDecompression.h:79-81 | shifting a bitmap word right gives back the bit of each of its words, also in the last, shorter one |
| Compression.CountWords | src/boot/sbeCompression.py:58-71 | the count of every word of the image is its multiplicity |
| Compression.SortByCount | src/boot/sbeCompression.py:73-76 | a permutation of the counted words with falling counts |
| Compression.ChooseDictionary | src/boot/sbeCompression.py:73-82 | no word left out of the dictionary occurs more often than one in it, and the dictionary is as large as it can be |
| Compression.Compress | src/boot/sbeCompression.py:40-133 | the file is dictionary, size, padded bitmap and payload, with a most frequent dictionary; images of fewer than four bytes are refused |
| Compression.PayloadLength | src/boot/sbeCompression.py:122-131 | the payload is three bytes shorter for every word found in the dictionary |
| Compression.DictionaryIsOptimal | src/boot/sbeCompression.py:59-82 | no dictionary of at most 256 words gives a shorter payload |
| Decompression.DecodeWord | src/boot/sbeDecompression.h:82-114 | one step of the unpacker restores one word from a code byte or four literal bytes and leaves the reader after it |
| Decompression.DecodeGroup | src/boot/sbeDecompression.h:73-115 | one bitmap word restores the words it covers |
| Decompression.Unpack | src/boot/sbeDecompression.h:26-119 | over any memory on which the unpacker ends, the bytes written are those that size, bitmap, codes and dictionary in that memory stand for, and nothing after them is written |
| Decompression.FileUnpacks | src/boot/sbeDecompression.h:26-119 | memory that begins with a compressed image, followed by eight more bytes, stands for exactly the image |
| Decompression.Decompress | src/boot/sbeDecompression.h:26-119 | memory that begins with a compressed image, followed by eight more bytes, is unpacked to exactly the image and nothing after it is written |
| Compression.PackAndUnpack | src/boot/sbeDecompression.h:26-119 | compressing and then decompressing gives back every byte of every admissible image, whatever follows the file |
| CompressionLimits.RestoredExactly | src/boot/sbeDecompression.h:26-119 | for every image: if it is a whole number of words, has at least 256 different ones and at most 2^39 - 256 bytes, unpacking restores it whatever follows the file; otherwise some bytes behind the file make the unpacker write something else or never end |
| CompressionLimits.LastIsBehind | src/boot/sbeDecompression.h:34-46 | with a dictionary of fewer than 256 words the last code is read from behind the file |
| CompressionLimits.ChangedRun | src/boot/sbeDecompression.h:82-114 | another last code byte that stands for another word changes what the run writes |
| CompressionLimits.PackAndUnpackShort | src/boot/sbeDecompression.h:34-46 | packing an image with fewer than 256 different words into at most 1024 bytes and unpacking it before zeros leaves the output buffer as it was |
| CompressionLimits.UnalignedIsAmbiguous | src/boot/sbeCompression.py:60-61 | an image that is no whole number of words shares its file with another image, so nothing can restore both |
| TraceTime.TimeIsExact | src/tools/trace/ppe2fsp.c:68-79 | seconds and nanoseconds are exactly floor(ticks * 10^9 / hz) if and only if the seconds fit 32 bits |
| TraceTime.TimeIsMonotone | src/tools/trace/ppe2fsp.c:68-79 | later ticks never get an earlier stamp |
| TraceTime.NewestIsTrue | src/tools/trace/ppe2fsp.c:423-426 | the start time is the newest entry's true time with bit 28 of the upper word dropped, so it is the true time if and only if that bit is clear |
| TraceTime.StepIsExact | src/tools/trace/ppe2fsp.c:470-484 | one step back finds the older time if and only if the difference lies in the window |
| TraceTime.WindowAsDifference | src/tools/trace/ppe2fsp.c:462-469 | the window is newer - older at most the maximum change and more than minus (2^32 - maximum change) |
| TraceTime.TimesAreExact | src/tools/trace/ppe2fsp.c:470-487 | all true 64-bit times are recovered if and only if no step leaves the window |
| TraceBuffer.GetEntry | src/tools/trace/ppe2fsp.c:252-332 | the two-part copy yields the entry that ends at the offset, also around the end of the buffer |
| TraceBuffer.CopyWraps | src/tools/trace/ppe2fsp.c:305-328 | copying up to the end and then from the start is reading modulo the buffer size |
| TraceBuffer.FooterReads | src/import/chips/p9/procedures/ppe/pk/trace/pk_trace.h:209-228 | the bytes of a footer: the string's id, flag, count, and a word with the format below the time |
| TraceEntry.FspEntry.Convert | src/tools/trace/ppe2fsp.c:107-249 | the local entry holds the converted head, the data, the left-over bytes and the trailing size word |
| TraceEntry.EntryTells | src/tools/trace/ppe2fsp.c:121-153 | the converted head read back: exact time while it fits, instance, line, length and kind of the data, and the hash, whose upper half is the trace's prefix and whose lower half the id of the string or of the partial-entry string |
| TraceEntry.EntrySizeTells | src/tools/trace/ppe2fsp.c:156-246 | the size of a converted entry is its last word |
| TraceEntry.EntryKeepsData | src/tools/trace/ppe2fsp.c:156-238 | the converted data read back: the parameters or bytes traced, the two bytes of a tiny parameter, or the two halves of a partial entry's own hash |
| TraceConverter.PutEntry | src/tools/trace/ppe2fsp.c:82-103 | the entry, or as much of its end as fits, goes right before the data already there; nothing else changes |
| TraceConverter.ShiftUp | src/tools/trace/ppe2fsp.c:508-516 | the data moves to the front unchanged |
| TraceConverter.ConvertAll | src/tools/trace/ppe2fsp.c:428-506 | after the loop the end of the data area holds the last bytes of the converted entries, oldest to newest |
| TraceConverter.AndFindsPowers | src/tools/trace/ppe2fsp.c:388-394 | the size test of the converter passes exactly for powers of two |
| TraceConverter.Check | src/tools/trace/ppe2fsp.c:352-408 | which check refuses an input, in the order of the code |
| TraceConverter.Ppe2Fsp | src/tools/trace/ppe2fsp.c:335-530 | a usable input succeeds; the data area is the last min(total, capacity) bytes of the converted entries joined oldest to newest, and size and entry count say so |
| TraceConverter.ServedFills | src/tools/trace/ppe2fsp.c:494-505 | the reported entry count is the smallest number of newest entries that fill the area, or all |
| TraceConverter.ReadBackShown | src/tools/trace/ppe2fsp.c:240-246 | walking back by the size words from the end of the area recovers exactly the entries that are there whole |
| TraceConverter.ConvertedAtTrueTimes | src/tools/trace/ppe2fsp.c:422-490 | when no step leaves the window every entry is converted at its true time |
| TraceLog.FooterRoundTrip | src/import/chips/p9/procedures/ppe/pk/trace/pk_trace.h:209-228 | a footer is read back as it was written |
| TraceLog.WriterHolds | src/import/chips/p9/procedures/ppe/pk/trace/pk_trace_binary.c:69-112 | after any run of the writer the circular buffer holds the end of everything written |
| TraceLog.WalkRecovers | src/tools/trace/ppe2fsp.c:431-461 | over a buffer that holds the end of a log of entries, the walk finds the newest ones in order, with at most the oldest one cut, if and only if every entry it steps over was stored whole |
| TraceWriter.CallStorable | src/import/chips/p9/procedures/ppe/pk/trace/pk_trace_binary.c:59-66 | what every call stores fits the buffer; it is all the data its footer announces if and only if binary data is not above half a buffer of up to 256 bytes |
| TraceWriter.CallStoresEntry | src/import/chips/p9/procedures/ppe/pk/trace/pk_trace_binary.c:69-115 | the stores of a trace call, footer first, data next, completion flag last, are one cyclic store of its entry |
| TraceWriter.CaughtInCall | src/import/chips/p9/procedures/ppe/pk/trace/pk_trace_binary.c:94-99 | in a buffer captured after the first store, with any part of the data stored, a reader finds the call's footer with the flag at zero, which marks a partial entry |
| TraceWriter.TracedIsFound | src/import/chips/p9/procedures/ppe/pk/trace/pk_trace_big.c:60-115 | after any sequence of trace calls the converter's walk finds the newest entries, in order and unchanged, with at most the oldest one cut, if and only if no entry it steps over was clipped |
| TraceWriter.NewestIsFound | src/import/chips/p9/procedures/ppe/pk/trace/pk_trace_binary.c:59-66 | the newest entry is found as it was traced if and only if it was not clipped; the step back is always what its footer announces |
| TraceWriter.ClippedShowsOldBytes | src/import/chips/p9/procedures/ppe/pk/trace/pk_trace_binary.c:59-66 | the data found of the newest entry ends with what was stored, so old bytes stand where data was clipped |
| TraceWriter.ClippedAt256 | src/sbefw/core/pk_app_cfg.h:146-149 | at the firmware's buffer size a 200-byte binary trace, after any others, is stored in 136 bytes and stepped over by 208, and the walk does not find what was traced |
| TraceChain.TracedDemands | src/import/chips/p9/procedures/ppe/pk/trace/pk_trace_big.c:60-115 | a buffer left by calls of which none met whole was clipped, and none announces more than the buffer has, meets the demands of the converter |
| TraceChain.AlwaysRoom | src/sbefw/core/pk_app_cfg.h:146-149 | from the firmware's buffer size on, only clipping can keep the calls from being converted |
| TraceChain.ConvertTraced | src/tools/trace/ppe2fsp.c:335-530 | tracing such calls, converting and reading back: the conversion succeeds, shows the traced entries at their true times, and the size words lead back to every whole one |
| TraceChain.ExpectedTells | src/tools/trace/ppe2fsp.c:335-530 | every entry shown but the oldest one found tells what its trace call traced: string hash, data, and the call's time with the adjustment added |
| TraceChain.CaughtShowsPartial | src/tools/trace/ppe2fsp.c:172-236 | the call a capture interrupts is shown with the hash of the partial-entry string, and its own hash as data, both given by their halves |
| MemRegions.DetectsExactly | src/sbefw/core/sbeSecureMemRegionManager.C:45-52 | the overlap test is true exactly for ranges that share an address and whose sizes add up in 32 bits, or for one empty range at address zero |
| MemRegions.PartialDetects | src/sbefw/core/sbeSecureMemRegionManager.C:37-70 | for any regions and any range: the scan's result has a mode if and only if the region it settles on has one, the first detected that holds the start, or else the last detected |
| MemRegions.PartialFinds | src/sbefw/core/sbeSecureMemRegionManager.C:37-70 | the scan returns the open region that holds the start, cut to the request |
| MemRegions.RegionManager.GetPartialRegionSize | src/sbefw/core/sbeSecureMemRegionManager.C:37-70 | the loop computes the scan |
| MemRegions.RegionManager.Add | src/sbefw/core/sbeSecureMemRegionManager.C:76-106 | refuses an amend or a full table, otherwise appends the region; nothing else changes |
| MemRegions.RegionManager.Remove | src/sbefw/core/sbeSecureMemRegionManager.C:108-145 | deletes the first region with that start and keeps the others in order, or reports that there is none |
| MemRegions.RegionManager.CloseAllRegions | src/sbefw/core/sbeSecureMemRegionManager.H:113-116 | leaves no region open |
| MemRegions.AddAnswers | src/sbefw/core/sbeSecureMemRegionManager.C:76-106 | which of its three answers an addition gets, and that it appends the region exactly when it succeeds |
| MemRegions.RemoveClosesOne | src/sbefw/core/sbeSecureMemRegionManager.C:108-145 | closing takes out the first region open at that start and leaves the others in order; not found is answered exactly when none is open there |
| MemRegions.RegionManager.IsAccessAllowed | src/sbefw/core/sbeSecureMemRegionManager.C:150-186 | for every request that does not stall the check returns; success only for covered requests; over disjoint regions, success if and only if every address is covered and the sizes fit 32 bits at every region entered |
| MemRegions.LargeRequestRefused | src/sbefw/core/sbeSecureMemRegionManager.C:51-52 | a covered request for a whole 2 GB region is not found by the scan |
| MemRegions.StallsExactly | src/sbefw/core/sbeSecureMemRegionManager.C:157-170 | a round is granted without getting the request shorter, so that the check never returns, if and only if the request stalls |
| MemRegions.NoStallLater | src/sbefw/core/sbeSecureMemRegionManager.C:157-170 | only the first round can stall |
| MemRegions.EmptyAtZeroStalls | src/sbefw/app/power/sbecmdmemaccess.C:743-790 | with just an empty region open at address zero every request there that shares a mode bit stalls |
| MemRegions.AddKeepsDisjoint | src/sbefw/core/sbeSecureMemRegionManager.C:76-106 | for any regions: adding keeps them disjoint if and only if it is not an unseen overlap, one where the region the scan settles on, if any, has no mode |
| MemRegions.UnseenByWrapping | src/sbefw/core/sbeSecureMemRegionManager.C:45-52 | among regions that are not empty and have a mode, an overlap is unseen if and only if all open regions met are too large for the test |
| MemRegions.ModelessHides | src/sbefw/app/power/sbecmdmemaccess.C:743-790 | a region opened without a mode lets a region be added that overlaps another |
| MemRegions.ReplayKeepsOrder | src/sbefw/core/sbeSecureMemRegionManager.C:76-145 | over every sequence of add, remove and close, the regions are disjoint and within the table after every step if and only if no addition is an unseen overlap |
| MemRegions.WrappedSizesOverlap | src/sbefw/core/sbeSecureMemRegionManager.C:51-52 | two equal regions of 2 GB can both be opened |
| SecurityTables.BinarySearch | src/sbefw/core/securityAlgo.C:39-71 | finds the key in a sorted range or proves it absent |
| SecurityTables.IsPresent | src/sbefw/core/securityAlgo.C:73-119 | for well-formed tables true if and only if the tables denote the address, whether or not chiplet ranges overlap |
| SecurityTables.WithinIsAllowed | src/sbefw/core/securityAlgo.C:133-134 | the mask test passes if and only if every bit set in the mask is set in the entry's bits |
| SecurityTables.GreyIsPresent | src/sbefw/core/securityAlgo.C:125-141 | true if and only if some grey entry has the address and allows every bit of the mask |
| SecurityTables.IsAllowed | src/sbefw/core/sbeSecurity.C:35-53 | the firmware's decision: white list, or grey list for partial writes; everything but the black list for reads; everything with security off |
| SecurityGen.ChipletRanges | src/build/security/securityRegListGen.py:338-348 | the ranges contain exactly the chiplets of a base address, rise, and are maximal runs: a gap lies between neighbours |
| SecurityGen.GroupOf | src/build/security/securityRegListGen.py:391-408 | the entries of one range hold exactly its registers, sorted |
| SecurityGen.ExtendDenotes | src/build/security/securityRegListGen.py:457-470 | appending a group to the tables adds exactly its registers to what they denote |
| SecurityGen.ExtendWellFormed | src/build/security/securityRegListGen.py:457-470 | appending a group keeps counts running and slices sorted |
| SecurityGen.BuildTables | src/build/security/securityRegListGen.py:455-470 | well-formed tables for exactly the grouped registers, if and only if the counts fit their fields |
| SecurityCounts.GetTables | src/build/security/securityRegListGen.py:312-483 | tables come out if and only if the list has fewer than 256 pairs of maximal run and middle byte and fewer than 65536 runs; then they are well formed and denote exactly the listed registers |
| SecurityCounts.SizesAre | src/build/security/securityRegListGen.py:455-470 | table 3 has a row for each maximal run of chiplets with a common base, table 2 for each pair of such a run and a middle byte |
| SecurityCounts.SmallListsFit | src/build/security/securityRegListGen.py:312-483 | fewer than 256 registers always fit |
| SecurityCounts.AllMiddlesOverflow | src/build/security/securityRegListGen.py:430-431 | 256 registers of one chiplet, one for each middle byte, do not fit |
| SecurityCounts.LookUp | src/sbefw/core/securityAlgo.C:73-119 | for every list that fits, the firmware's lookup in the generated tables is membership in the list |
| SecurityDump.LoadDump | src/sbefw/core/securityAlgo.C:183-253 | loading a dump, whatever follows it, gives back all three lists |
| SecurityDump.SendLists | src/sbefw/core/sbeSecurity.C:56-236 | with no transfer failing, header, both table sets, grey list and the closing byte go out in order, padded to a granule |
| SecurityCodes.ListDump | src/sbefw/core/sbeSecurity.C:94-170 | which transfers are made and what is reported, for every sequence of transfer answers |
| SecurityCodes.FailureHidden | src/sbefw/core/sbeSecurity.C:118-157 | success is reported over a failed transfer if and only if the last loop with anything to send ran through and an earlier one did not |
| SecurityCodes.FirstFailureHidden | src/sbefw/core/sbeSecurity.C:118-157 | one record per table and a failure of the first transfer: success is reported |
| SecurityCodes.Dump | src/sbefw/core/sbeSecurity.C:200-236 | the whole dump reports success if and only if header, both lists, grey list and closing byte report it |
| SecurityCodes.DumpHides | src/sbefw/core/sbeSecurity.C:200-236 | a successful dump had no failed transfer if and only if neither list hides one |
| SecurityDump.Loader.Init | src/sbefw/core/securityAlgo.C:183-253 | the first call loads the lists, later calls change nothing |
| SecurityDump.Loader.IsAccessAllowed | src/sbefw/core/securityAlgo.C:147-181 | the host's decision; nothing is allowed before the lists are loaded |
| SecurityDump.HandOver | src/sbefw/core/sbeSecurity.C:200-236 | after the dump, loading the bytes that memory holds gives the host the firmware's lists |
| SecurityChain.HostVerdict | src/sbefw/core/securityAlgo.C:147-181 | register lists through generator, dump, memory and loader: host and firmware decide every access as the register lists ask, for all lists that fit |
| MemAccess.Interface.SetUp | src/sbefw/core/sbeMemAccessInterface.C:48-96 | opens a window with a new budget, only after the previous one was cleaned up |
| MemAccess.Interface.AccessGranule | src/sbefw/core/sbeMemAccessInterface.C:98-158 | moves one granule at the running address, in an open window, first access flagged and last one cleaned up |
| MemAccess.WholeGranules | src/sbefw/core/sbeMemAccessInterface.C:98-158 | the bytes of a log are a whole number of granules |
| MemAccess.CallsKeepRules | src/sbefw/core/sbeMemAccessInterface.C:48-158 | a setup comes first or after a cleaned up access, an access in an open window, flagged as first exactly when it follows the setup |
| MemAccess.BudgetKept | src/sbefw/core/sbeMemAccessInterface.C:98-158 | no window is used for more accesses than it was granted, and the last one granted cleans up |
| MemAccess.StoredIsData | src/sbefw/core/sbeMemAccessInterface.C:98-158 | memory holds the written bytes from the start address on and is unchanged elsewhere |
| MemAccess.Interface.Align | src/sbefw/core/sbeMemAccessInterface.C:259-273 | a begun granule is filled with zeros |
| MemAccess.Interface.Write | src/sbefw/core/sbeMemAccessInterface.C:160-257 | the bytes accepted so far grow by the buffer, and by zeros to a whole granule when it is the last |
| MemAccess.Interface.WriteAll | src/sbefw/core/sbeMemAccessInterface.C:160-273 | memory from the start address holds the buffers joined, with zeros to a whole granule, and is unchanged elsewhere |
| MemAccess.SplitDoesNotMatter | src/sbefw/core/sbeMemAccessInterface.C:160-273 | two ways to split the same message leave the same memory |
| MemAccess.Interface.Read | src/sbefw/core/sbeMemAccessInterface.C:160-257 | a read delivers memory from where the stream stands; a last read that needs no more than what is buffered starts at the next granule |
| Fifo.UpFifoDeqMult | src/sbefw/core/sbeFifoMsgUtils.C:60-195 | stores just the first requested words in order, counts all words seen, and leaves the rest of the buffer alone |
| Fifo.DequeueDecides | src/sbefw/core/sbeFifoMsgUtils.C:60-195 | for every sequence of answers, with or without flush: the first one that ends the dequeue decides the code, and the words seen are those up to there |
| Fifo.DequeueWaits | src/sbefw/core/sbeFifoMsgUtils.C:60-195 | without an answer that ends it the dequeue has seen all words and waits |
| Fifo.EotDecides | src/sbefw/core/sbeFifoMsgUtils.C:60-195 | with end of transmission expected: success if and only if exactly the requested words precede it, insufficient if fewer, excess if more |
| Fifo.CountDecides | src/sbefw/core/sbeFifoMsgUtils.C:60-195 | without: stops at the last requested word, or reports a shortage |
| Fifo.DownFifo.EnqMult | src/sbefw/core/sbeFifoMsgUtils.C:199-277 | sends the words in order whatever the full pattern; a request for none sends one word if and only if the first look finds room |
| Fifo.EnqueueDecides | src/sbefw/core/sbeFifoMsgUtils.C:199-277 | for every sequence of looks: the first one that ends the enqueue decides the code, and a word went out for each look that found room |
| Fifo.NoneAsked | src/sbefw/core/sbeFifoMsgUtils.C:199-277 | a request for no words takes one look: success exactly when it is full or has room, and one word sent exactly when it has room |
| Response.AnnouncedLength | src/sbefw/core/sbeFFDC.C:47-72 | the 16-bit length announced in the header is the number of words of the package modulo 2^16 |
| Response.PackageTells | src/sbefw/core/sbeFFDC.C:47-72 | a package read back: its own number of words modulo 2^16, the failed command, status, firmware, the dumps asked for, and exactly the blobs that share a bit with the configuration, in order |
| Response.FfdcPackage.SendOverFifo | src/sbefw/core/sbeFFDC.C:97-178 | a successful send puts the whole package on the FIFO, its first words announcing the number of words sent modulo 2^16, and reports its length, or nothing if not wanted |
| Response.SendResponse | src/sbefw/core/sbeFifoMsgUtils.C:323-401 | a successful response is a frame, header first and last word the number of words from the header through itself, and its whole contents are given for every FIFO pattern |
| Response.FrameTells | src/sbefw/core/sbeFifoMsgUtils.C:323-401 | what a response holds: the procedure's data exactly when it failed, the internal package exactly when it is wanted and the status is not success, each at its place |
| Response.SendHwpFailure | src/sbefw/core/sbeFifoMsgUtils.C:342-372 | the procedure data as sent; the length in the first word sent is the number of words sent modulo 2^16 if and only if no stray word goes out |
| Response.AnnouncedIsSent | src/sbefw/core/sbeFifoMsgUtils.C:342-372 | the words announced are the words sent if and only if there is data or the first look for it finds the FIFO full |
| Response.StrayWordGoesOut | src/sbefw/core/sbeFifoMsgUtils.C:199-277 | a FIFO that always has room gets a word nobody announced |
| Response.LastWordFindsHeader | src/sbefw/core/sbeFifoMsgUtils.C:323-401 | from the last word of any stream that ends in a frame a reader finds the header, and in it command class, command and status |
| HostFfdc.MemAvailableCheck | src/sbefw/core/sbeMemAccessInterface.C:37-46 | cuts a piece to the room left and marks the end when it does not fit |
| HostFfdc.SendOverHostIntf | src/sbefw/core/sbeFFDC.C:180-277 | the host buffer gets as much of the package as fits; the last granule is completed if and only if the package was cut or its last field selected |
| HostFfdc.LengthInBytes | src/sbefw/core/sbeFFDC.C:180-277 | the first four bytes in host memory say that a package follows and how many words it has, cut or not |
| JenkinsHash.MixInvertible | src/tools/trace/jhash.h:48-59 | the mixing step has a two-sided inverse on all 32-bit triples |
| JenkinsHash.XorWordBits | src/tools/trace/jhash.h:48-59 | the exclusive or of the model sets exactly the bits in which its arguments differ |
| JenkinsHash.ShiftLeftIs | src/tools/trace/jhash.h:48-59 | the left shift of the model multiplies by a power of two and drops what does not fit 32 bits |
| JenkinsHash.Jhash | src/tools/trace/jhash.h:68-106 | the byte version computes the specified hash of the key's little-endian words |
| JenkinsHash.BlocksAreMixed | src/tools/trace/jhash.h:73-86 | the state after the whole blocks of any key, block by block in terms of its bytes |
| JenkinsHash.HashOfKey | src/tools/trace/jhash.h:88-106 | the closing of any key in terms of its bytes: those left, followed by zeros, are added as two little-endian words, and three more above the length |
| JenkinsHash.TailCounts | src/tools/trace/jhash.h:88-103 | keys of one length that agree on the blocks and differ behind them enter the last mix with different triples |
| JenkinsHash.MixInjective | src/tools/trace/jhash.h:48-59 | and the code's mixing keeps different triples apart |
| JenkinsHash.Jhash2 | src/tools/trace/jhash.h:111-137 | the word version computes the specified hash of the words |
| JenkinsHash.WordsHashAsBytes | src/tools/trace/jhash.h:108-137 | the hash of words is the hash of their little-endian bytes, with four times the length |
| JenkinsHash.HashBothWays | src/tools/trace/jhash.h:48-137 | with the code's own mixing, the byte version on the little-endian bytes and the word version on the words return the same |

## Left out

- S0 interrupts and the Simics sleep paths: they break the run-to-completion assumption for the receiver.
- Inline assembly, I2C reset and machine check code: instruction-level hardware behaviour.
- Chip-op bodies, hardware procedures, SCOM access and the PK kernel: nondeterministic steps with stated return codes.
- Response content on the PSU mailbox: abstracted to "response sent".
- Command fencing, the state transition table, the attribute service, ring access, the pool and the timer service: small tables and lookups that add only easy members.
- ECC and itag bytes in granule access, and recovery after a failed setup.
- Command lines, file input and output, the UART console and debug scripts.
- The constant fields of the converted trace header (version, flags, component name, wrap count, first free offset).
- Null-pointer checks of `ppe2fsp`: the model has no null buffers.
- Compression.PackAndUnpack: for the images that unpacking restores; RestoredExactly proves that no others are, whatever follows.
- Decompression.Unpack: for memory that goes on for eight bytes after the last code; the code reads up to the end of the eight bytes in which that code ends.
- SecurityDump.SendLists: demands that no transfer fails; SecurityCodes has the failing ones, without the bytes they leave in memory.
- MemRegions.RegionManager.IsAccessAllowed: the exact condition is claimed for disjoint regions; ReplayKeepsOrder says when they are.
- TraceConverter.Ppe2Fsp: demands entries that fit the converter's local buffers (Demands), because the code copies without checking that.
- TraceEntry.FspEntry.Convert: not for the empty format, for which `pte2fte` returns zero: the walk ends before it gets there.
- TraceChain.ConvertTraced: for calls of which none that is met whole was clipped; TracedIsFound proves that otherwise the walk does not find what was traced.
- Interrupts between the reads of single source bits: see the size of steps above.
