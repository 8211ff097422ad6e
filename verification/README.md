# Verified models of five components of the O2 framework

This project models, in Dafny, the parts of the O2 simulation and reconstruction framework whose
correctness rests on an argument that cannot be read off a single function, and proves that argument.

1. **Software binary64** (`GPU/Common/GPUCommonDoubleBinary64.h`): add, subtract, multiply, divide and the
   integer and binary32 conversions on raw 64-bit words. The reference is `Ieee754.RoundsTo`, which words
   roundTiesToEven of section 4.3.1 of IEEE 754-2019 over exact integer fractions: the result is infinity
   exactly from the overflow threshold on, and below it no datum is nearer, an even one winning a tie. Every
   operation is proved to return the rounding of its exact result for all operands, subnormal and overflowing
   results included, with the NaN, infinity and zero-sign rules of sections 6.1 to 6.3 and 7.2, 7.3.
   Division assumes of the float reciprocal only a relative error of at most 2^-22, whatever its exponent.
2. **Device sorting and reductions** (`GPU/Common/GPUCommonAlgorithm.h`): the in-place quicksort with its
   fixed-size stack, the odd-even block sort under every thread interleaving, and the butterfly all-reduce.
3. **The parallel simulation pipeline** (`run/O2PrimaryServerDevice.cxx`, `run/O2HitMerger.cxx`): the server
   that cuts events into chunks from the back, the merger that reassembles them on two threads, and the
   renumbering of every track. `EndToEnd.SimulateBatch` joins them: for every chunk size, interleaving of
   threads, assignment to workers and order of arrival, either the server stopped early on a torn read, or every
   written event holds first exactly its own primaries, each once, in their original order, and then the
   secondaries its workers returned.
4. **The CCDB downloader** (`CCDB/src/CCDBDownloader.cxx`): the retry machine over redirect locations and
   hosts, the bounded queue and the completion counters; a run of any number of requests ends with every
   request over, no location fetched twice and every counter at zero.
5. **The field-support model** (`run/o2sim_geometry_doctor.cxx`): slices, merged intervals, bands, separation,
   coverage and verdicts, over the reals, from the field to what a verdict of OUT says about it.

Words are integers with explicit bounds; every wrap and every truncating shift of the source is written
out (`Bits`). `hide` statements keep proofs small; nothing is assumed.

## Three places where the code does not do what it is meant to do

- **The server can turn a worker away too early.** `HandleRequest` decides whether work may be handed out by
  loading the atomic state twice in one test (`run/O2PrimaryServerDevice.cxx:535`). When the generator
  thread finishes its event exactly between the two loads, the first sees "waiting" and the second "ready",
  the test fails, the worker gets an answer that makes it quit, and in batch mode the server stops with
  work left. `PrimaryServer.TurnedAwayEarly` is a concrete run; `PrimaryServer.Server.Serve` proves that
  all parts are handed out if and only if no request meets such a torn read.
- **The completeness test wraps.** The sum test of the merger is exact if and only if there are at most 65535
  parts (`CompletenessTest.SumTestExactly`); beyond, some incomplete set of parts passes it.
- **A flat extent is always "covered".** `coveredBySupport` returns true for every extent of zero length in z.
  For each such extent there is a support with the margins of the source, less than the tight margin away,
  for which the verdict is IN_COVERED although no point of the extent is supported
  (`FieldSupport.FlatExtentMisjudged`). A verdict of IN_COVERED can be relied on, for every support, if and only
  if the extent has some length in z (`FieldSupport.InCoveredExactly`).

After an answer with a redirect code whose transfer failed, content that the callback has just found locally is
set aside and the next location is taken; this and an empty address are the only ways in which one answer leads to
two rounds through the locations (`CcdbDownloader.Request.PlainReaction`).

The first of the two predicated remainder steps of the division is never taken: the adjusted remainder is
already in [0, divisor] (`NewtonDivide.Correction`).

## Model

| member | source | states |
|---|---|---|
| `Ieee754.RoundsToUnique` | GPU/Common/GPUCommonDoubleBinary64.h:27-35 | the exact value determines the rounded word |
| `Ieee754.RoundsToSelf` | GPU/Common/GPUCommonDoubleBinary64.h:27-35 | a datum is the rounding of its own value |
| `Ieee754.RoundSignificand` | GPU/Common/GPUCommonDoubleBinary64.h:115-137 | rounding a significand by its discarded part and letting the carry ripple into the exponent is correct rounding, in every binade and at overflow |
| `WideMultiply.Mulhiu` | GPU/Common/GPUCommonDoubleBinary64.h:85-91 | the four partial products give exactly the high half of the 128-bit product |
| `WideMultiply.MulhisFloor` | GPU/Common/GPUCommonDoubleBinary64.h:92-98 | the signed high half is the floor of the exact product over 2^64 |
| `Binary64Word.PropNaNRule` | GPU/Common/GPUCommonDoubleBinary64.h:140-150 | a signalling operand before a quiet one, the first before the second; the result is that operand with its quiet bit set |
| `Binary64Word.SignXor` | GPU/Common/GPUCommonDoubleBinary64.h:185-188 | the sign of a product or quotient from the exclusive or of the operands |
| `Binary64Round.ShrJamExact` | GPU/Common/GPUCommonDoubleBinary64.h:108-113 | for every count the shift keeps the high bits and forces the last one when any lower bit was set |
| `Binary64Round.AgreeShrJam` | GPU/Common/GPUCommonDoubleBinary64.h:100-113 | a second jam, of an already jammed significand, decides every half-ulp question like the exact value |
| `Binary64Round.RoundPack` | GPU/Common/GPUCommonDoubleBinary64.h:122-137 | whatever exact value the exponent and jammed significand stand for, the packed word is its rounding: gradual underflow, carry and overflow included |
| `Binary64AddSub.AddFinite` | GPU/Common/GPUCommonDoubleBinary64.h:166-183 | the sum of two finite words is the rounding of the exact sum; exact zeros get the sign of section 6.3 |
| `Binary64AddSub.AddSub` | GPU/Common/GPUCommonDoubleBinary64.h:152-183 | sum and difference of any two words, NaNs and infinities included |
| `Binary64AddSub.Align` | GPU/Common/GPUCommonDoubleBinary64.h:170-175 | aligning the smaller operand with a jam loses nothing that a later half-ulp test could see |
| `Binary64Mul.ProductWords` | GPU/Common/GPUCommonDoubleBinary64.h:215-224 | the two words of the 106-bit product shifted together, and the bits below |
| `Binary64Mul.Normalise` | GPU/Common/GPUCommonDoubleBinary64.h:199-214 | a nonzero finite operand as a significand in [2^52, 2^53) and an exponent, subnormals shifted |
| `Binary64Mul.MulNormalised` | GPU/Common/GPUCommonDoubleBinary64.h:215-226 | the rounding of the exact product of two normalised operands |
| `Binary64Mul.Mul` | GPU/Common/GPUCommonDoubleBinary64.h:185-226 | the product of any two words |
| `NewtonDivide.GoodSeedIff` | GPU/Common/GPUCommonDoubleBinary64.h:266-267 | a relative error of at most 2^-22 is exactly: exponent field 102 to 104, and significand in units of 2^-48 times the divisor within 2^26 of 2^48 |
| `NewtonDivide.SeedWord` | GPU/Common/GPUCommonDoubleBinary64.h:266-268 | for each of the three exponents the shift gives the seed's significand scaled to a reciprocal of 2^114 |
| `NewtonDivide.NewtonStep` | GPU/Common/GPUCommonDoubleBinary64.h:270-273 | one step takes an error of 2^94 below 2^75 and one of 2^75 below 2^54, in units of 2^-114, without leaving a signed word |
| `NewtonDivide.Reciprocal` | GPU/Common/GPUCommonDoubleBinary64.h:266-274 | seed, two steps and clamp: the reciprocal is within 2^54 of 2^114 over the divisor |
| `NewtonDivide.FirstQuotient` | GPU/Common/GPUCommonDoubleBinary64.h:275-278 | the first quotient leaves a remainder within 2^57 |
| `NewtonDivide.WrappedRemainder` | GPU/Common/GPUCommonDoubleBinary64.h:278 | the wrapping 64-bit difference is that exact remainder |
| `NewtonDivide.Correction` | GPU/Common/GPUCommonDoubleBinary64.h:279-282 | the adjustment brings the remainder into [0, divisor], so it is never negative afterwards |
| `NewtonDivide.DivideSignificands` | GPU/Common/GPUCommonDoubleBinary64.h:263-288 | quotient and remainder of the dividend times 2^62 are exact, from any seed within 2^-22 |
| `NewtonDivide.RoundedIsGood` | GPU/Common/GPUCommonDoubleBinary64.h:266-267 | the hypothesis on the seed is met by a reciprocal chopped to 24 bits and by the float below it, in any mixture, the one with exponent field 102 included |
| `Binary64Div.QuotientScale` | GPU/Common/GPUCommonDoubleBinary64.h:262-289 | the 63-bit quotient with a sticky bit stands for the exact quotient of the operands |
| `Binary64Div.Div` | GPU/Common/GPUCommonDoubleBinary64.h:228-290 | the quotient of any two words: correctly rounded for finite operands, zeros, infinities and NaNs by their sections |
| `Binary64Exact.SumDetermined` | GPU/Common/GPUCommonDoubleBinary64.h:27-35 | the operands determine every bit of a sum or difference |
| `Binary64Exact.ProductDetermined` | GPU/Common/GPUCommonDoubleBinary64.h:27-35 | the operands determine every bit of a product |
| `Binary64Exact.QuotientDetermined` | GPU/Common/GPUCommonDoubleBinary64.h:27-35 | the operands determine every bit of a quotient |
| `Binary64Convert.FromU32` | GPU/Common/GPUCommonDoubleBinary64.h:292-300 | an unsigned integer converts to a datum of exactly its value |
| `Binary64Convert.FromI32Exact` | GPU/Common/GPUCommonDoubleBinary64.h:302-305 | a signed integer, the least one included, converts to a datum of exactly its value |
| `Binary64Convert.FromFloat` | GPU/Common/GPUCommonDoubleBinary64.h:307-325 | widening is exact, subnormals included; infinities kept, NaN payloads kept and made quiet |
| `Binary64Narrow.NarrowSignificand` | GPU/Common/GPUCommonDoubleBinary64.h:341-358 | comparing the dropped part with half an ulp is correct rounding to binary32 |
| `Binary64Narrow.ToFloat` | GPU/Common/GPUCommonDoubleBinary64.h:327-363 | narrowing is correctly rounded for every word, float subnormals, underflow and overflow included |
| `Binary64Narrow.RoundTrip` | GPU/Common/GPUCommonDoubleBinary64.h:307-363 | widening and narrowing returns every bit pattern, signalling NaNs made quiet |
| `WeakOrder.NotGreaterTransitive` | GPU/Common/GPUCommonAlgorithm.h:58-70 | what the sorts use of a strict weak order |
| `QuickSort.Insert` | GPU/Common/GPUCommonAlgorithm.h:91-98 | the inner loop moves one element down past the greater ones, by fewer places than the band is wide |
| `QuickSort.InsertionSort` | GPU/Common/GPUCommonAlgorithm.h:87-103 | sorts the range and permutes it; the result is what one move down per element makes of the input, and with a band of width w every one of these moves is shorter than w |
| `QuickSort.MedianOf3Select` | GPU/Common/GPUCommonAlgorithm.h:105-127 | two of the three elements looked at are not smaller than the result, and two not greater |
| `QuickSort.ScanUp` | GPU/Common/GPUCommonAlgorithm.h:133-135 | the unguarded scan stops at or before any element not smaller than the pivot |
| `QuickSort.ScanDown` | GPU/Common/GPUCommonAlgorithm.h:136-139 | the same from the other side |
| `QuickSort.UnguardedPartition` | GPU/Common/GPUCommonAlgorithm.h:129-147 | the scans stay inside the range; it is split into elements not greater and not smaller than the pivot, a permutation, with a nonempty right part and a nonempty left one when a second guard exists |
| `QuickSort.Split` | GPU/Common/GPUCommonAlgorithm.h:191-192 | median and partition make a cut inside every range of two or more, and keep all other cuts |
| `QuickSort.PartitionKeepsCuts` | GPU/Common/GPUCommonAlgorithm.h:184-192 | rearranging between two cuts keeps every cut and adds one |
| `QuickSort.Stack.Emplace` | GPU/Common/GPUCommonAlgorithm.h:171-179 | needs a free slot and positions that fit the index type |
| `QuickSort.StackDepth` | GPU/Common/GPUCommonAlgorithm.h:171-172 | pushing the longer part first keeps the stack of n < 2^bits elements at bits - 5 entries or fewer |
| `QuickSort.SplitStack` | GPU/Common/GPUCommonAlgorithm.h:184-211 | one turn keeps every long segment on the stack and halves the bound of each new level |
| `QuickSort.ProcessTop` | GPU/Common/GPUCommonAlgorithm.h:185-211 | the loop body: invariant, depth and progress |
| `QuickSort.PartitionLoop` | GPU/Common/GPUCommonAlgorithm.h:181-211 | ends, with the range cut into segments of at most 50; turn by turn its stack goes from the whole range to nothing, and it never holds more than bits - 5 entries |
| `QuickSort.SegmentsBand` | GPU/Common/GPUCommonAlgorithm.h:172-213 | short ordered segments mean that nothing has to move 50 places |
| `QuickSort.QuickSortImpl` | GPU/Common/GPUCommonAlgorithm.h:159-214 | sorts and permutes the range for every strict weak order |
| `QuickSort.QuickSort` | GPU/Common/GPUCommonAlgorithm.h:149-157 | 16-bit positions suffice up to 65535 elements, 32-bit ones below 2^32 |
| `OddEvenSort.ScheduleCovers` | GPU/Common/GPUCommonAlgorithm.h:302 | for every block size and interleaving each index is visited exactly once in a round |
| `OddEvenSort.ScheduleRound` | GPU/Common/GPUCommonAlgorithm.h:301-314 | every thread order computes the same round |
| `OddEvenSort.Crossed` | GPU/Common/GPUCommonAlgorithm.h:306-312 | how many large elements pass a position in one round |
| `OddEvenSort.RoundsSort` | GPU/Common/GPUCommonAlgorithm.h:300-315 | as many rounds as elements leave every input sorted, although equal elements are exchanged |
| `OddEvenSort.EqualsExchanged` | GPU/Common/GPUCommonAlgorithm.h:306-312 | the equal neighbours of a pair are exchanged too |
| `OddEvenSort.SortInBlock` | GPU/Common/GPUCommonAlgorithm.h:290-317 | the loop in place, under any interleaving of any number of threads: sorted, a permutation, and the same result for every interleaving |
| `Butterfly.PeerOfPower` | GPU/Common/GPUCommonAlgorithm.h:448-460 | the lane that differs in one bit |
| `Butterfly.PartialStep` | GPU/Common/GPUCommonAlgorithm.h:462-491 | one exchange joins two disjoint sets of lanes |
| `Butterfly.AllReduce` | GPU/Common/GPUCommonAlgorithm.h:462-491 | every lane of a group of 2^w ends with the reduction of exactly the group's values, each once |
| `Butterfly.ReduceExtremes` | GPU/Common/GPUCommonAlgorithm.h:472-491 | the reductions with the device's minimum and maximum are the least and the greatest of the values |
| `Butterfly.WarpReduceMin` | GPU/Common/GPUCommonAlgorithm.h:472-480 | every lane ends with the least value of its group, its own among them |
| `Butterfly.WarpReduceMax` | GPU/Common/GPUCommonAlgorithm.h:482-490 | every lane ends with the greatest value of its group |
| `Butterfly.WarpReduceAdd` | GPU/Common/GPUCommonAlgorithm.h:462-470 | every lane ends with the sum of its group's values |
| `TrackMerge.IndexRange` | run/O2HitMerger.cxx:473-532 | output positions are in range, primaries before secondaries |
| `TrackMerge.IndexInjective` | run/O2HitMerger.cxx:473-532 | no two tracks share a position |
| `TrackMerge.IndexInOrder` | run/O2HitMerger.cxx:473-532 | primaries keep their order, and so do secondaries; with the rows around it this determines every position |
| `TrackMerge.IndexOnto` | run/O2HitMerger.cxx:473-532 | no position stays empty |
| `TrackMerge.AppendKeeps` | run/O2HitMerger.cxx:509-527 | one secondary: its mother is already in the list, and all earlier mothers and daughters stay right |
| `TrackMerge.DaughterStep` | run/O2HitMerger.cxx:520-525 | the daughter fields follow the least and greatest daughter through one more track |
| `TrackMerge.ReorderAndMerge` | run/O2HitMerger.cxx:464-533 | every track at its mapped position, mothers of secondaries mapped alike, the daughter fields of every track right; a single part is passed through |
| `TrackMerge.MergedDaughters` | run/O2HitMerger.cxx:487-531 | the last daughter is the greatest output index of a daughter and the first the least, but for a primary not transported that came with one; transported primaries without daughters have none |
| `TrackMerge.MotherBeforeDaughter` | run/checkStack.cxx:104-108 | a secondary stands after its mother |
| `TrackMerge.EachPositionOneTrack` | run/O2HitMerger.cxx:473-532 | each position holds exactly one of the tracks |
| `TrackMerge.RefFollowsTrack` | run/O2HitMerger.cxx:588-627 | a reference follows its track if and only if it names none, or a primary, or the announced sizes before it add up |
| `TrackMerge.RefsFollowTracks` | run/O2HitMerger.cxx:588-627 | with the real sizes announced every reference follows its track |
| `TrackMerge.RemapTrackIdsAndMerge` | run/O2HitMerger.cxx:565-613 | the references of all parts, last part first; with the real sizes announced each one names the position of its own track in the merged list |
| `TrackMerge.OrderOfParts` | run/O2HitMerger.cxx:712-716 | part numbers in any order of arrival give the writing order |
| `CompletenessTest.SumTest` | run/O2HitMerger.cxx:278-282 | up to 65535 different part numbers pass the test exactly when all are there |
| `CompletenessTest.SumTestExactly` | run/O2HitMerger.cxx:278-282 | the test is exact if and only if there are at most 65535 parts |
| `EventMerger.ArrivalStep` | run/O2HitMerger.cxx:385-402 | one new part keeps sums, buffers and flushable events consistent, and the sum tells completeness |
| `EventMerger.HitMerger.FlushNext` | run/O2HitMerger.cxx:658-811 | exactly what was buffered for the next event is flushed, one received message for each of its parts, and the branch for missing data is never taken |
| `EventMerger.HitMerger.ThreadStep` | run/O2HitMerger.cxx:648-829 | every step of the merge thread keeps the invariant |
| `EventMerger.HitMerger.Join` | run/O2HitMerger.cxx:412-431 | a joined thread that had not left its loop leaves nothing flushable next |
| `EventMerger.HitMerger.Receive` | run/O2HitMerger.cxx:380-402 | this message, and nothing else, is added to the buffer and the checksum of its event |
| `EventMerger.HitMerger.MarkAndMerge` | run/O2HitMerger.cxx:402-418 | a complete event becomes flushable, and a merge is started unless one is in its loop or just leaving it |
| `EventMerger.HitMerger.HandleSimData` | run/O2HitMerger.cxx:380-440 | for every interleaving: no more data is expected if and only if all parts of all events are here, and then every event has been flushed |
| `EventMerger.HitMerger.Collect` | run/O2HitMerger.cxx:351-440 | a whole run in any order of arrival: it stops with the last message, events flushed once each in increasing order, with messages that arrived |
| `EventMerger.AllHereAtTheEnd` | run/O2HitMerger.cxx:422-433 | everything is here exactly after the last message |
| `PrimaryServer.PartsCoverEvent` | run/O2PrimaryServerDevice.cxx:567-601 | last part first, the parts are the event's primaries in order, each once, for every chunk size |
| `PrimaryServer.NumberOfParts` | run/O2PrimaryServerDevice.cxx:567-570 | the least number of parts that holds all primaries, and at least one |
| `PrimaryServer.GenerateEvent` | run/O2PrimaryServerDevice.cxx:188-228 | exactly the first of 101 attempts that is not empty, or nothing when all of them are |
| `PrimaryServer.PrimsGenerated` | run/O2PrimaryServerDevice.cxx:188-228 | the primaries of an event are what the generator drew for it |
| `PrimaryServer.Server.WorkAvailable` | run/O2PrimaryServerDevice.cxx:531-538 | work is refused exactly when nothing is left or the state was read torn |
| `PrimaryServer.Server.HandleRequest` | run/O2PrimaryServerDevice.cxx:526-644 | the next part in order or a refusal that makes the worker quit, and when which |
| `PrimaryServer.Server.StartEvent` | run/O2PrimaryServerDevice.cxx:548-565 | the generator has been joined before its event is used |
| `PrimaryServer.Server.NextChunk` | run/O2PrimaryServerDevice.cxx:567-619 | the part is cut while no generator runs; a generator is launched only over a joined thread |
| `PrimaryServer.Server.ConditionalRun` | run/O2PrimaryServerDevice.cxx:495-511 | the loop goes on exactly as long as parts are handed out |
| `PrimaryServer.Server.Serve` | run/O2PrimaryServerDevice.cxx:466-644 | a whole batch run: parts in order, then one refusal; everything is handed out if and only if no state was read torn |
| `PrimaryServer.TurnedAwayEarly` | run/O2PrimaryServerDevice.cxx:535-538 | a concrete run in which a worker quits with an event left |
| `EndToEnd.MergedPrimaries` | run/O2HitMerger.cxx:483-495 | the merged list starts with exactly the primaries in their original order |
| `EndToEnd.MergeEvent` | run/O2HitMerger.cxx:671-777 | whatever messages an event was flushed with, one part or many, the written list is its primaries in order and then the secondaries at their places |
| `EndToEnd.FlushedIsResult` | run/O2HitMerger.cxx:351-440 | a flushed event holds, for each of its parts, what a worker made of just that chunk |
| `EndToEnd.MergeAll` | run/O2HitMerger.cxx:351-830 | the merger's side of a run: for every order of arrival and interleaving each written event is right |
| `EndToEnd.SimulateBatch` | run/O2PrimaryServerDevice.cxx:466-644 | server, workers and merger together: all parts are merged if and only if no state was read torn, and then every written event starts with exactly the primaries that were drawn for it, in order |
| `EndToEnd.AnyArrivalDelivers` | run/O2PrimaryServerDevice.cxx:576-585 | the workers' messages for a whole run, in any order, are what the merger's run needs |
| `EndToEnd.ScheduleOrdered` | run/O2PrimaryServerDevice.cxx:548-619 | parts are scheduled event by event, and in order within each |
| `CcdbDownloader.InsertedIs` | CCDB/src/CCDBDownloader.cxx:673-704 | new locations are distinct, none is lost, and the tried ones stay in place |
| `CcdbDownloader.FreshInOrder` | CCDB/src/CCDBDownloader.cxx:673-699 | new locations come in the order in which they were first offered |
| `CcdbDownloader.LocalMeans` | CCDB/src/CCDBDownloader.cxx:417 | which addresses are looked up locally |
| `CcdbDownloader.Request.UpdateLocations` | CCDB/src/CCDBDownloader.cxx:673-704 | the location list after both headers |
| `CcdbDownloader.Request.GetNewLocation` | CCDB/src/CCDBDownloader.cxx:393-404 | each call takes the next location, which is one not taken before |
| `CcdbDownloader.Request.FollowRedirect` | CCDB/src/CCDBDownloader.cxx:379-424 | locations are taken in order while they were to be found locally and were not; then one is transferred or found, or has an empty address, or none is left |
| `CcdbDownloader.Request.FollowsUnique` | CCDB/src/CCDBDownloader.cxx:379-424 | where that ends, and how, is determined |
| `CcdbDownloader.Request.PlainReaction` | CCDB/src/CCDBDownloader.cxx:522-555 | unless an address is empty or a failed transfer overrules local content, an answer without content leads to just one such round |
| `CcdbDownloader.Request.TryNewHost` | CCDB/src/CCDBDownloader.cxx:361-377 | the next host, by its own address and with its own header list |
| `CcdbDownloader.Request.React` | CCDB/src/CCDBDownloader.cxx:522-567 | an answer that brought the content ends the request with it and takes no location; any other leads to the next location of this host, else to the next host, else to giving up; no location is taken twice |
| `CcdbDownloader.TransfersBounded` | CCDB/src/CCDBDownloader.cxx:485-599 | transfers are at most hosts plus different locations offered |
| `CcdbDownloader.RunRequest` | CCDB/src/CCDBDownloader.cxx:485-599 | a request ends, whatever the transfers report, and has fetched no location twice |
| `CcdbDownloader.Downloader.CheckHandleQueue` | CCDB/src/CCDBDownloader.cxx:649-659 | first come first served, the limit is never exceeded and always used |
| `CcdbDownloader.Downloader.AsynchSchedule` | CCDB/src/CCDBDownloader.cxx:729-763 | a request is counted once when it is scheduled; it is under way and nobody else's |
| `CcdbDownloader.ReactFor` | CCDB/src/CCDBDownloader.cxx:485-599 | the reaction of one request leaves every other one under way as it was |
| `CcdbDownloader.Downloader.TransferFinished` | CCDB/src/CCDBDownloader.cxx:485-599 | for any active handle: its request goes back to the end of the queue under way, or is over and counted down exactly once, the latter whenever the content was brought; all counters stay right |
| `CcdbDownloader.RunAll` | CCDB/src/CCDBDownloader.cxx:485-763 | any number of requests, completions in any order, any reports about finitely many locations: all of it ends, every request over, with its content if any transfer brought it, each location fetched at most once, every counter at zero |
| `CcdbDownloader.CounterAtZero` | CCDB/src/CcdbApi.cxx:2109-2126 | the completion loop ends exactly when all its requests are finished |
| `FieldSupport.Separation` | run/o2sim_geometry_doctor.cxx:291-309 | the square of the least gap, early exit included |
| `FieldSupport.SeparationIsLower` | run/o2sim_geometry_doctor.cxx:291-309 | no point of the extent is nearer to the expanded support |
| `FieldSupport.SeparationIsAttained` | run/o2sim_geometry_doctor.cxx:291-309 | some point of it is exactly that near |
| `FieldSupport.SeparationZero` | run/o2sim_geometry_doctor.cxx:291-311 | it vanishes exactly when some point of the extent is supported |
| `FieldSupport.DepthIsLeastShift` | run/o2sim_geometry_doctor.cxx:320-333 | the depth in an interval is the least radial shift, inward or outward, that gets the extent out of it |
| `FieldSupport.Penetration` | run/o2sim_geometry_doctor.cxx:313-333 | a radial shift by the result gets the extent out of any one interval it meets, and for one of them no smaller shift does |
| `FieldSupport.ClearMeansNoDepth` | run/o2sim_geometry_doctor.cxx:313-333 | an extent clear of the support penetrates it nowhere |
| `FieldSupport.Walk` | run/o2sim_geometry_doctor.cxx:353-365 | the frontier walk gets through if and only if from every place before the end some segment that starts at most 1e-9 later goes on |
| `FieldSupport.CoveredBySupport` | run/o2sim_geometry_doctor.cxx:335-365 | the same in terms of the bands that hold the extent radially, both ways |
| `FieldSupport.CoveredMeans` | run/o2sim_geometry_doctor.cxx:335-365 | an extent of some length that is covered is everywhere within 1e-9 of a band that holds it; one inside such bands is covered |
| `FieldSupport.HeldRadially` | run/o2sim_geometry_doctor.cxx:335-365 | in a band that holds the extent, every radius of the extent is supported |
| `FieldSupport.FlatExtentMisjudged` | run/o2sim_geometry_doctor.cxx:1540-1562 | for every extent of no length, a support for which its verdict is IN_COVERED although nothing of it is supported |
| `FieldSupport.InCoveredExactly` | run/o2sim_geometry_doctor.cxx:1559-1562 | IN_COVERED can be relied on for every support if and only if the extent has some length |
| `FieldSupport.Classify` | run/o2sim_geometry_doctor.cxx:1540-1575 | every verdict, if and only if: OUT and OUT_TIGHT are exactly that no supported point lies within the margin, OUT_BOUNDARY that nothing is supported or a shift by twice the edge uncertainty clears every interval, the others in terms of coverage and the scan |
| `FieldBands.BisectCrossing` | run/o2sim_geometry_doctor.cxx:427-438 | for either order of the two radii, the result lies strictly between them and half way between a radius above the threshold and one not above it, 0.01 or less apart whenever 60 halvings can reach that |
| `FieldBands.SliceAt` | run/o2sim_geometry_doctor.cxx:445-474 | a grid radius lies in a slice interval if and only if the field there exceeds the threshold; an interval holds such a radius and ends inside the grid only at a bisected crossing |
| `FieldBands.MergeIntervals` | run/o2sim_geometry_doctor.cxx:476-492 | nothing lost, nothing added but gaps of at most 1e-9, larger gaps left open |
| `FieldBands.SameStructureNotTransitive` | run/o2sim_geometry_doctor.cxx:494-506 | slices may drift along a run |
| `FieldBands.RunDrift` | run/o2sim_geometry_doctor.cxx:494-506 | by at most 0.02 a slice at every edge |
| `FieldBands.NearestSlice` | run/o2sim_geometry_doctor.cxx:537-542 | a z is in the cell of a slice exactly when no slice is nearer |
| `FieldBands.HullTwice` | run/o2sim_geometry_doctor.cxx:559-561 | merging slice after slice stays within 1e-9 of the slices |
| `FieldBands.BuildBands` | run/o2sim_geometry_doctor.cxx:551-569 | every band is a longest run of populated slices that are alike, and every populated slice is in one |
| `FieldBands.NothingLost` | run/o2sim_geometry_doctor.cxx:537-569 | a point in the cell and an interval of a slice has separation zero |
| `FieldBands.StaysLocal` | run/o2sim_geometry_doctor.cxx:537-569 | a z in a band is within half a coarse step of a populated cell of the band's run, a radius in it within 1e-9 of a slice of that run |
| `FieldBands.Scan` | run/o2sim_geometry_doctor.cxx:515-535 | a slice at every coarse step; between two of them all the fine ones if the structure changed and none if not |
| `FieldBands.OuterBound` | run/o2sim_geometry_doctor.cxx:230-236 | where a slice sees the field above the threshold at a grid radius, the point is supported |
| `FieldBands.SupportIsLocal` | run/o2sim_geometry_doctor.cxx:544-569 | the support is, up to 1e-9, what lies within half a coarse step of the cell of a slice and within 0.01 of an interval of a slice of the same run |
| `FieldBands.BuildSupport` | run/o2sim_geometry_doctor.cxx:508-577 | the support built from a field is such an outer bound, stays local in this sense, and has the edge uncertainty and margins of the source |
| `FieldBands.QuietIsFar` | run/o2sim_geometry_doctor.cxx:544-569 | where the field is quiet from a grid radius on, nothing further out than the tolerances is claimed |
| `FieldBands.Judge` | run/o2sim_geometry_doctor.cxx:1540-1558 | from field to verdict: in an extent judged OUT or OUT_TIGHT the field exceeds the threshold at no slice and grid radius; an extent is judged OUT only if it keeps the margin to what the runs of slices saw, and whenever it keeps it by 1e-9 more or lies outside a radius from which the field is quiet |

## Left out

- The compiler's float division behind the reciprocal seed: any function with a relative error of at most 2^-22 stands for it.
- Thread steps inside one compare-exchange of the block sort: pairs are disjoint, so each exchange is one step.
- 32-bit overflow of the index arithmetic in the block sort: positions are unbounded integers.
- The host path through `std::sort`, `partitionPoint`, the Thrust sorts and all GPU address-space qualifiers.
- Reductions of floating-point values, whose addition is not associative.
- Reading and writing one word by two threads at once: the steps of the server, the generator and the merger are atomic, the two loads of the server state apart.
- Service mode, control channel, failed or timed-out sends, filtering by environment variable on the worker, driver pipes and signals.
- Exceptions inside the event generator, seeds and event headers.
- `TrackMerge.ReorderAndMerge`: the daughter resets also happen in the buffered input tracks, which are freed afterwards; the model works on values and keeps them.
- Secondaries whose local mother is not an earlier track of the same part: the worker's stack does not produce them, and the model requires that.
- Merging of detector hits, tree and file output, forwarding of kinematics.
- `EventMerger.HitMerger.MarkAndMerge`: an event marked while the merge thread is just leaving its loop is flushed by the next merge, not by one of its own, as in the source.
- `EventMerger.HitMerger.Receive`: the checksum and the buffers change in one step, since the merge thread reads neither for an event that is not complete.
- curl, libuv, sockets and timers: a finished transfer is an arbitrary report. `prepareRedirectedURL` and the local-content callback are arbitrary functions.
- Changing the connection limit while transfers run.
- `CcdbDownloader.Downloader.AsynchSchedule`: blocking batches, which set their counter to the number of handles at once, are scheduled one by one like the others.
- Gate tokens, cache files and the flat header of `CcdbApi`.
- Square roots in the field support: distances are compared through their squares, and rounding of doubles is not modelled.
- `FieldSupport.Classify`: the result of the disproof scan is a parameter.
- `FieldBands.Scan`: the slices for the other thresholds; that one of them changed is a parameter.
- The violation scan, geometry walking, reports and JSON of the geometry doctor.
