# Proofs about the microcode of MIT/GNU Scheme

The project models the parts of the microcode that are hardest to get right and proves what they
promise. A model follows its source file's own form: state that the C code keeps in static variables,
records or buffers is the state of a class or an array here, its loops are loops with invariants, and what
they compute is stated by functions about which the main results are proved.

* **Garbage collection** (`Objects`, `HeapGraph`, `GcState`, `GcLists`, `GcSteps`, `GcScan`, `GcQueue`,
  `GcRoom`, `GcMoves`, `GcResult`, `GcRun`, `GcWalk`, `GcLoop`, `GcTheorems`, `GcMeaning`). `GcLoop.Collector`
  is the copying collector over a heap of tagged words: tuples with eager transport of list tails, vectors, blocks
  that are not traced, weak pairs with the chain threaded through old space, and ephemerons with their hash
  table, list and queue. One invariant (`GcState.Inv`) is kept by every step. `GcWalk` is the walk through a
  bucket of that table as a state machine over memory, which need not end. `GcTheorems` states what a whole
  collection achieves: the copied objects are the live ones, every path of slots from every root leads to the
  same place as before, sharing is kept, lists are kept together, and weak references and ephemerons are
  cleared by the rule of the least fixpoint. `GcMeanings` writes the model's own terms out, word
  by word.
* **Dumping** (`Fasdump`, `DumpImage`). The dump leaves broken hearts in old space and logs what they
  overwrite; finished or aborted, replaying the log restores every word. A finished dump is the image of the
  dumped object: what the object reaches, each object once, with every pointer leading to the place of the
  object that it led to before, and lists kept together. A dump is aborted only for lack of room or for an
  environment that must not be dumped.
* **Bignums** (`Digits`, `Bits`, `Bignum` and the files that start with it). The radix is the square of a
  symbolic power of two. Addition, multiplication with its overflow bounds, all division paths, the ten
  bitwise operations as operations on infinite two's complement, shifts and digit streams.
* **Integers** (`Fixnum`, `Integer`). The product of fixnums from half words, and the layer that mixes fixnums
  and bignums, which computes the mathematical results in canonical form.
* **Compiled code** (`Linker`, `Frames`). The restartable linker over any run of failures, moves of the block
  and restarts, for any answers of the handlers; argument frames reshaped in place on a stack that grows down,
  and the trampolines that do the same for a fixed number of arguments.
* **Bit strings** (`BitString`). The three alignment cases of the bit copy refine copying bit by bit.
* **Trees** (`AvlTree`, `AvlNodes`), **Blowfish** with three chaining modes (`Blowfish`, `BlowfishModes`) and
  the **merge sort** whose two arrays change places (`MergeSort`).

## Findings

Some properties do not hold of the code on all inputs. Each has its exact condition:

* Shifting a negative bignum right reads one digit past the end of the complement exactly when the number is
  the negative of a power of the radix, all the digits below that power are shifted out, and bits remain to be
  shifted by (`BignumShifts.BignumShiftRight`, `BignumShifts.MissingWhen`). The negative of the radix, shifted
  by one digit and one bit, is such an input (`Integers.MissingDigitExample`).
* `bignum_fits_in_word_p` compares top digits only. For two's-complement words with fewer bits, besides the
  sign, than a digit it is right (`Integers.SmallWordsRight`). When those bits are a multiple of the digit length
  it rejects the least word and accepts no number below it. For all other longer words it accepts numbers below
  the least word (`Integers.LongWordsWrong`). `Integers.FitsWhen` gives the exact set.
* The linker leaves its scan pointer right behind the header of a section without entries. For an operator
  section with relocation words that is not the next section (`Linker.SectionEnds`), and the linking then takes
  a relocation word for the next header (`Linker.LinkState.LinkPastEmptySection`), unless the section was the
  last.
* The walk that queues the ephemerons of a key goes on in the queue after it has moved an ephemeron there. It
  never ends if and only if bucket and queue both hold an ephemeron of the key (`GcWalk.WalkEndsWhen`), and it
  ends with all of the key's waiting ephemerons queued if and only if none waits, or exactly one waits and none
  is on the queue (`GcWalk.QueuesAllWhen`). With two that wait, the first call queues one of them and the second
  never returns (`GcWalk.SecondCallNeverReturns`, and a memory for which that happens in
  `GcWalk.TwoEphemeronsFail`). The results about whole collections are for heaps in which no two live ephemerons
  share a live key.
* `Mul` gives nothing for the least fixnum, though that fits in a fixnum; for every other product that fits it
  gives it (`Fixnums.Mul`, `Fixnums.LeastFixnum`). The integer layer is not affected.
* In `bignum_digit_divide` the estimate loop stops at the exact digit (`BignumDigitDivision.BddGuess`), so the
  add-back after it, which is right all the same (`BignumDigitDivision.BignumDigitDivideSubtract`), is not needed.

That a dump logs each address only once is needed: at any moment of any dump, logging a copied object's address
again would leave its broken heart in memory (`Fasdump.TwiceLoggedFails`).

## Model

| member | source | states |
|---|---|---|
| HeapGraph.LeastClosed | src/microcode/gcloop.c:1014-1052 | a closed set of live objects is exactly the set of live objects: the fixpoint that the ephemeron scan works towards |
| GcSteps.PlainKeeps | src/microcode/gcloop.c:537-575 | copying an object as it stands keeps the collector's invariant: forwarding, contents, chain, lists and table |
| GcSteps.ExtendPlaced | src/microcode/gcloop.c:537-575 | a copy put at the end of tospace keeps copies disjoint and filling tospace, one copy per object |
| GcSteps.ExtendChain | src/microcode/gcloop.c:537-575 | a broken heart never damages the weak chain threaded through old pairs |
| GcSteps.WeakKeeps | src/microcode/gcloop.c:922-943 | copying a weak pair, masking its car and pushing it on the chain keeps the invariant |
| GcSteps.WeakChain | src/microcode/gcloop.c:930-941 | the chain holds each copied pair with a collectable car once, with its type tag in the link |
| GcSteps.ListedKeeps | src/microcode/gcloop.c:945-983 | copying an ephemeron and entering it in its key's bucket and in the list keeps the invariant |
| GcSteps.ListedTable | src/microcode/gcloop.c:970-975 | after the entry every bucket still holds exactly the waiting ephemerons with that hash |
| GcScan.StepKeeps | src/microcode/gcloop.c:420-441 | replacing the word at the scan pointer by its relocated form keeps the invariant |
| GcScan.SkipKeeps | src/microcode/gcloop.c:662-665 | stepping over a block with a non-marked manifest lands at its end and keeps the invariant |
| GcScan.WordAtScan | src/microcode/gcloop.c:426-440 | a manifest of untraced words at the scan pointer is the first word of such a block, with its size |
| GcQueue.QueueKeeps | src/microcode/gcloop.c:912-917 | unlinking an ephemeron from its bucket and pushing it on the queue keeps the invariant |
| GcQueue.PopKeeps | src/microcode/gcloop.c:1036-1048 | taking the first ephemeron off the queue keeps the invariant |
| GcQueue.DatumKeeps | src/microcode/gcloop.c:1049 | storing the traced datum keeps the invariant |
| GcRoom.RoomFor | src/microcode/gcloop.c:551-558 | tospace never overflows: the copies made so far and the next object fit in the size of fromspace |
| GcRoom.Pigeonhole | src/microcode/gcloop.c:551-558 | distinct words within an interval are no more than its length |
| GcMoves.CdrCopied | src/microcode/gcloop.c:451-455 | the second word of an unscanned pair is the pair's old one, and can be scanned |
| GcMoves.NothingPending | src/microcode/gcloop.c:449-457 | a list stops being followed only at a tail copied before |
| GcWalk.WalkInside | src/microcode/gcloop.c:905-919 | at every turn of the walk its link and its ephemeron are inside the table and tospace |
| GcWalk.WalkEndsWhen | src/microcode/gcloop.c:905-919 | the walk ends if and only if bucket and queue do not both hold an ephemeron of the key, whatever keys are shared |
| GcWalk.TrappedCycle | src/microcode/gcloop.c:905-919 | with two ephemerons of the key in front of it on the queue, two turns of the walk lead back to the same memory and link |
| GcWalk.TrappedForever | src/microcode/gcloop.c:905-919 | a walk that gets there never ends |
| GcWalk.QueuesAllWhen | src/microcode/gcloop.c:889-920 | a call ends with exactly the key's waiting ephemerons queued if and only if none waits, or exactly one waits and none of the key is queued |
| GcWalk.SecondCallNeverReturns | src/microcode/gcloop.c:889-920 | with two ephemerons waiting for a key, the first call ends and the next one does not |
| GcWalk.TwoEphemeronsFail | src/microcode/gcloop.c:889-920 | a memory of two ephemerons with one key: the second call comes back to a state it was in |
| GcWalk.DistinctStops | src/microcode/gcloop.c:1014-1035 | when no two live ephemerons share a live key, every call for a live key ends with all its ephemerons queued |
| GcMoves.QueuedPhase | src/microcode/gcloop.c:515-523 | with the key's ephemerons queued, an ephemeron waits exactly as long as its key is not copied, also for the object about to be |
| GcLoop.Collector.OpenSpaces | src/microcode/memmag.c:306-319 | the collector at its start: nothing copied, the two seeds in tospace, the invariant and the phase established |
| GcLoop.Collector.QueueEphemeronsForKey | src/microcode/gcloop.c:889-920 | whenever the walk ends, the loop leaves the walk's memory, and the first ephemeron of the key in the bucket has been moved to the queue |
| GcLoop.Collector.PrecheckFrom | src/microcode/gcloop.c:505-524 | the address itself outside fromspace, the forwarding address of a copied object, and otherwise 0 with the ephemerons of that key queued |
| GcLoop.Collector.TransportWords | src/microcode/gcloop.c:537-575 | the words are appended to tospace and a broken heart with their new address replaces the first |
| GcLoop.Collector.TransportCdrs | src/microcode/gcloop.c:449-457 | the rest of a list is copied pair behind pair, whatever the cars are, up to a pair copied before |
| GcMoves.TailsTogether | src/microcode/gcloop.c:449-457 | what the handlers keep of lists: a copied pair's list tail stands two words behind the pair, or was copied before it |
| GcLoop.Collector.GcTuple | src/microcode/gcloop.c:443-461 | the forwarded tuple; every copied pair has its tail right behind it or copied before |
| GcLoop.Collector.GcVector | src/microcode/gcloop.c:464-475 | the forwarded vector, with the number of words its manifest gives |
| GcLoop.Collector.WeakReferentForward | src/microcode/gcloop.c:849-887 | the forwarded reference when the object was copied, and the given word otherwise |
| GcLoop.Collector.TransportWeakPair | src/microcode/gcloop.c:922-943 | the forwarded pair, with the invariant kept |
| GcLoop.Collector.GcHandleWeakPair | src/microcode/gcloop.c:612-620 | the forwarded pair, copied at most once |
| GcLoop.Collector.GcInvariantOrLive | src/microcode/gcloop.c:959-968 | true exactly when the key is not collectable or has been copied |
| GcLoop.Collector.LinkEphemeron | src/microcode/gcloop.c:970-980 | the copy is skipped by the scan and heads its bucket and the list |
| GcLoop.Collector.TransportEphemeron | src/microcode/gcloop.c:945-983 | the forwarded ephemeron, listed exactly when its key is not known to be live |
| GcLoop.Collector.GcHandleEphemeron | src/microcode/gcloop.c:622-630 | the forwarded ephemeron, copied at most once |
| GcLoop.Collector.HandleObject | src/microcode/gcloop.c:583-665 | every kind of word is relocated to a copied object or left as it is |
| GcLoop.Collector.GcScanTospace | src/microcode/gcloop.c:408-441 | scanning ends with everything copied scanned; memory outside fromspace is unchanged |
| GcLoop.Collector.GcScanOldspace | src/microcode/gcloop.c:395-441 | every word of a root area is relocated and nothing else outside fromspace changes |
| GcLoop.Collector.QueueLiveEphemerons | src/microcode/gcloop.c:1014-1035 | afterwards a listed ephemeron waits exactly when its key is not copied |
| GcLoop.Collector.ScanNextDatum | src/microcode/gcloop.c:1036-1051 | one queued ephemeron gets its datum traced; the measure that bounds the loop goes down |
| GcLoop.Collector.ScanEphemerons | src/microcode/gcloop.c:1014-1053 | terminates with all data of ephemerons with copied keys traced and nothing left queued |
| GcLoop.Collector.UpdateEphemerons | src/microcode/gcloop.c:1067-1087 | every listed ephemeron is settled and unlinked |
| GcLoop.Collector.UpdateWeakPairs | src/microcode/gcloop.c:1089-1109 | the chain is walked to its end, and every copied cell is settled |
| GcLoop.Collector.UpdateWeakPointers | src/microcode/gcloop.c:1111-1117 | when the roots have been traced, the copied objects are exactly the live ones |
| GcLoop.Collector.ScanRoots | src/microcode/memmag.c:306-327 | the two roots are in tospace and both root areas scanned |
| GcLoop.Collector.StdGcPt1 | src/microcode/memmag.c:306-327 | a whole collection terminates and is finished in the sense of the theorems below; the root areas are relocated; every copied pair's list tail stands two words behind it or was copied before |
| GcRun.TurnDecreases | src/microcode/gcloop.c:1036-1051 | each turn of the ephemeron queue copies an object or scans a datum, so the loop ends |
| GcRun.AllQueued | src/microcode/gcloop.c:1014-1035 | going through the list queues every ephemeron with a copied key |
| GcResult.StrongTraced | src/microcode/gcloop.c:420-441 | after the scan, what a strong slot of a copied object refers to has been copied |
| GcResult.CopiedClosed | src/microcode/gcloop.c:1014-1053 | the copied objects are closed under strong reachability and the ephemeron rule |
| GcResult.CopiedLive | src/microcode/gcloop.c:1014-1053 | the copied objects are exactly the live ones |
| GcResult.EphemeronDone | src/microcode/gcloop.c:1071-1085 | updating one ephemeron settles its cells and no others |
| GcResult.WeakStep | src/microcode/gcloop.c:1098-1108 | updating one weak pair settles its car, with the type from the chain |
| GcResult.Settles | src/microcode/gcloop.c:1067-1109 | after both passes every cell of every copy is what the old word settles to |
| GcTheorems.SlotSettled | src/microcode/gcloop.c:420-575 | each slot of each live object is at the object's new address and settled |
| GcTheorems.EphemeronRule | src/microcode/gcloop.c:889-1087 | key and datum become false exactly when the key is not live; otherwise both are kept and what they refer to has been copied |
| GcTheorems.WeakPairRule | src/microcode/gcloop.c:788-1109 | the car follows a live referent with its type kept, and is the reclaimed marker otherwise |
| GcTheorems.CopiesTile | src/microcode/gcloop.c:537-575 | each live object is copied once; copies do not overlap and fill tospace after the seeds |
| GcTheorems.KeptReached | src/microcode/gcloop.c:420-575 | what a readable slot of a live object keeps is live again |
| GcTheorems.SamePaths | src/microcode/gcloop.c:420-575 | following any path of slots in newspace gives the relocated word that following it in the old graph gives |
| GcTheorems.SameGraph | src/microcode/gcloop.c:420-575 | that holds of every path from every root: the live graph is isomorphic in newspace |
| GcTheorems.ListsTogether | src/microcode/gcloop.c:449-457 | after a collection the tail of each copied pair stands right behind it, or was copied before it |
| GcTheorems.SameSharing | src/microcode/gcloop.c:420-575 | two words name one object after the collection if and only if they did before |
| GcMeanings.SlotMeans | src/microcode/gcloop.c:420-1117 | every word of every copy, by the kind of its object: relocated, as it was, reclaimed marker or false |
| GcMeanings.CopiedAreLive | src/microcode/gcloop.c:1014-1053 | copied and live are the same |
| GcMeanings.NothingElseLive | src/microcode/gcloop.c:1014-1053 | any set closed under what the roots, the slots and the ephemerons keep alive holds all live objects |
| GcMeanings.RootsCopied | src/microcode/gcloop.c:395-441 | what a root points to has been copied |
| GcMeanings.SeedsRelocated | src/microcode/memmag.c:306-319 | the words put into tospace first are the two roots, relocated |
| GcMeanings.ScanVisits | src/microcode/gcloop.c:395-441 | a scan visits each word it stops at, going past untraced blocks by their manifests |
| GcMeanings.RootAreasRelocated | src/microcode/memmag.c:319-327 | exactly the visited words of the root areas are relocated, and nothing else outside fromspace changes |
| GcMeanings.RootsAre | src/microcode/memmag.c:306-327 | the roots are the two words and the visited words of the areas |
| Fasdump.ReplayRestores | src/microcode/fasdump.c:497-507 | at any moment of a dump, replaying the log gives memory as it was before |
| Fasdump.ReplayLast | src/microcode/fasdump.c:497-507 | an address gets the word of the last entry logged for it |
| Fasdump.ReplayOther | src/microcode/fasdump.c:497-507 | other addresses are not touched by a replay |
| Fasdump.TwiceLoggedFails | src/microcode/fasdump.c:480-495 | at any moment, a logged address logged again would get its broken heart back |
| Fasdump.LogGrows | src/microcode/fasdump.c:384-393 | logging an address before writing its broken heart keeps memory and log in step |
| Fasdump.ScannableAppend | src/microcode/fasdump.c:384-393 | blocks appended to tospace keep it a sequence of words that the scan can handle |
| Fasdump.Fasdumper.AddFixup | src/microcode/fasdump.c:480-495 | the log grows by the address and its word, through growth of the buffer |
| Fasdump.Fasdumper.RunFixups | src/microcode/fasdump.c:497-507 | memory becomes the replay of the log |
| Fasdump.Fasdumper.PrecheckFrom | src/microcode/fasdump.c:378-382 | the forwarding address exactly of the logged objects |
| Fasdump.Fasdumper.GcTransportWords | src/microcode/gcloop.c:537-575 | the words are appended and the first is replaced by a broken heart |
| Fasdump.Fasdumper.TransportWords | src/microcode/fasdump.c:384-393 | fails exactly when there is no room and then changes nothing; otherwise copies the object and logs its first word, once |
| Fasdump.Fasdumper.TransportCdrs | src/microcode/gcloop.c:449-457 | the rest of a list is put pair behind pair, up to a pair put before; there is a failure only without room |
| Fasdump.Fasdumper.HandleTuple | src/microcode/gcloop.c:443-461 | the word with the address in the object's broken heart; a new object's words are put next; a weak pair is dumped as a pair |
| Fasdump.Fasdumper.HandleVector | src/microcode/gcloop.c:464-475 | the same for vectors and ephemerons |
| Fasdump.Fasdumper.HandleSymbol | src/microcode/fasdump.c:416-431 | the copy of a symbol has its name and an unbound marker for its value, which one depending on the kind of symbol |
| Fasdump.Fasdumper.HandleObject | src/microcode/fasdump.c:395-458 | every word the scan meets is forwarded, and the dump aborted only without room or for an environment that must not be dumped |
| Fasdump.Fasdumper.ScanWord | src/microcode/gcloop.c:420-441 | the word at the scan pointer becomes what stands for it in the image; memory, log and image stay in step |
| Fasdump.Fasdumper.GcScanTospace | src/microcode/gcloop.c:408-441 | terminates, finished or aborted, with log, image and memory in step; finished, every word put has been forwarded or skipped with its block |
| Fasdump.Fasdumper.PrimitiveFasdump | src/microcode/fasdump.c:110-189 | finished or aborted at any transport, every word of memory is as it was; finished, tospace is exactly the image of the object; with room and no forbidden environment among what must be met, it finishes |
| Fasdump.AmpleWhen | src/microcode/fasdump.c:384-447 | when a dump must finish: tospace has room for all of memory, or for the objects reached, and no environment is reached unless environments are dumped |
| Fasdump.RoomMissing | src/microcode/fasdump.c:384-393 | an object that does not fit shows that there was not room for all |
| Fasdump.NoEnvironment | src/microcode/fasdump.c:442-449 | an environment that the scan meets is among the words that had to be met |
| Fasdump.InStepKeeps | src/microcode/fasdump.c:384-393 | putting one more object keeps image, broken hearts and log in agreement on what was copied and where to |
| DumpImages.PutKeeps | src/microcode/fasdump.c:384-393 | objects put one after the other stay disjoint, fill the image and are each put for a pointer the scan has met |
| DumpImages.ObjectDumped | src/microcode/gcloop.c:408-441 | after the scan each slot of a dumped object stands at the object's place, forwarded; untraced data and symbols' missing values are as they were put |
| DumpImages.ImageMade | src/microcode/fasdump.c:103-109 | what was put and scanned is the image: every object once, nothing else, every pointer leads to its object's place |
| DumpImages.ImageLeast | src/microcode/fasdump.c:103-109 | nothing is dumped that the dumped object does not reach |
| DumpImages.DumpedSlot | src/microcode/fasdump.c:395-449 | each word of the image: raw data as it was, a symbol's value replaced by kind, pointers to their objects' places, other words as they were |
| DumpImages.DumpedTail | src/microcode/gcloop.c:449-457 | in the image the list tail of a pair stands right behind the pair, or before it |
| DumpImages.TotalFits | src/microcode/fasdump.c:384-393 | all objects together take no more room than memory |
| Digits.ValInjective | src/microcode/bignum.c:1507-1523 | digits of one length with one value are the same |
| Bits.BitwiseBit | src/microcode/bignum.c:786-809 | each bit of a digitwise operation is the operation on the bits |
| Bits.BitsDetermine | src/microcode/bignum.c:776-778 | an integer is determined by the bits of its two's complement |
| Bits.HdConsIsIor | src/microcode/bignmint.h:156 | joining half digits with an inclusive or is adding them |
| Bignums.NormalUnique | src/microcode/bignum.c:1507-1523 | a normal bignum is determined by its value |
| Bignums.BignumTrim | src/microcode/bignum.c:2391-2408 | leading zeros go, the value stays, and a zero gets no sign |
| Bignums.BignumTest | src/microcode/bignum.c:138-147 | the sign of the value |
| Bignums.BignumCompareUnsigned | src/microcode/bignum.c:1525-1547 | the order of the magnitudes |
| Bignums.BignumCompare | src/microcode/bignum.c:149-170 | the order of the values |
| Bignums.BignumEqualP | src/microcode/bignum.c:125-136 | true exactly for equal values |
| Bignums.BignumAddUnsigned | src/microcode/bignum.c:1553-1612 | a normal bignum whose magnitude is the sum |
| Bignums.BignumSubtractUnsigned | src/microcode/bignum.c:1616-1682 | a normal bignum whose value is the difference of the magnitudes, of either sign |
| Bignums.BignumAdd | src/microcode/bignum.c:172-187 | the sum, for all signs |
| Bignums.BignumSubtract | src/microcode/bignum.c:189-206 | the difference, for all signs |
| Bignums.BignumNegate | src/microcode/bignum.c:208-215 | the negative |
| BignumMultiplication.DoubleProduct | src/microcode/bignum.c:1733-1746 | the half-digit products make up addend + x * y + carry exactly |
| BignumMultiplication.ProductBounds | src/microcode/bignum.c:1684-1689 | product_low and product_high never exceed 2*R*R - R - 1, and the carry never R*R - 1 |
| BignumMultiplication.MultiplyRow | src/microcode/bignum.c:1722-1748 | one row adds a digit times y in place and changes nothing else |
| BignumMultiplication.BignumMultiplyUnsigned | src/microcode/bignum.c:1690-1755 | a normal bignum whose magnitude is the product |
| BignumMultiplication.BignumDestructiveScaleUp | src/microcode/bignum.c:1769-1797 | the number is multiplied in place when the product fits |
| BignumMultiplication.BignumMultiplyUnsignedSmallFactor | src/microcode/bignum.c:1757-1767 | the product by a factor of one digit below the radix root |
| BignumMultiplication.BignumMultiply | src/microcode/bignum.c:217-247 | the product, for all signs and all shortcuts |
| BignumDigitDivision.BignumDigitDivideSubtract | src/microcode/bignum.c:2205-2266 | a guess that is exact or one too large becomes exact, with the remainder left in place |
| BignumDigitDivision.BddGuess | src/microcode/bignum.c:2141-2161 | the estimate loop ends at the exact half digit of the quotient |
| BignumDigitDivision.BddStep | src/microcode/bignum.c:2141-2163 | one half digit of the quotient, with the remainder below the divisor |
| BignumDigitDivision.BignumDigitDivide | src/microcode/bignum.c:2137-2201 | the exact quotient and remainder of two digits by a divisor with a top half |
| BignumDigitwiseDivision.BignumDestructiveScaleDown | src/microcode/bignum.c:2291-2313 | division in place by a number below the radix root, and the remainder |
| BignumDigitwiseDivision.BignumRemainderUnsignedSmallDenominator | src/microcode/bignum.c:2315-2334 | the remainder by a number below the radix root |
| BignumDigitwiseDivision.BignumDigitToBignum | src/microcode/bignum.c:2336-2347 | a normal bignum with the digit's value, without sign when it is zero |
| BignumDigitwiseDivision.BignumDivideUnsignedSmallDenominator | src/microcode/bignum.c:2271-2285 | quotient and remainder with the signs asked for |
| BignumDigitwiseDivision.BignumDestructiveNormalization | src/microcode/bignum.c:2094-2117 | the digits shifted left into another array, with no carry lost |
| BignumDigitwiseDivision.BignumDestructiveUnnormalization | src/microcode/bignum.c:2119-2135 | the digits shifted right in place when only zeros are shifted out |
| BignumDigitwiseDivision.ScaledDivision | src/microcode/bignum.c:1830-1878 | scaling both numbers keeps the quotient and scales the remainder |
| BignumDigitwiseDivision.BignumDivideUnsignedMediumDenominator | src/microcode/bignum.c:2034-2092 | quotient and remainder by a single digit, whichever are asked for |
| BignumLongDivision.GuessEnough | src/microcode/bignum.c:1926-1944 | a guess that passes the test on two divisor digits is exact or one too large |
| BignumLongDivision.EstimateDigit | src/microcode/bignum.c:1910-1944 | the estimate loop ends with such a guess |
| BignumLongDivision.SubtractProduct | src/microcode/bignum.c:1965-1992 | guess * v is subtracted in place, with the borrow returned |
| BignumLongDivision.AddBack | src/microcode/bignum.c:2007-2025 | v is added back in place, with the carry returned |
| BignumLongDivision.BignumDivideSubtract | src/microcode/bignum.c:1955-2032 | the exact digit of the quotient, and the remainder below v left in place |
| BignumQuotients.BignumDivideUnsignedNormalized | src/microcode/bignum.c:1880-1953 | for every dividend and normalized divisor, the quotient stored and the remainder left in place are exact |
| BignumQuotients.BignumDivideUnsignedLargeDenominator | src/microcode/bignum.c:1830-1878 | quotient and remainder by two digits or more, through normalization and back |
| BignumQuotients.BignumDivide | src/microcode/bignum.c:249-317 | n = q*d + r with r below d in magnitude and with the sign of n, on all paths; division by zero is reported |
| BignumQuotients.BignumQuotient | src/microcode/bignum.c:319-368 | the quotient truncated towards zero, on all paths |
| BignumQuotients.BignumRemainder | src/microcode/bignum.c:370-420 | the remainder with the sign of the numerator, also by the shortcut for powers of two |
| BignumQuotients.LowDigitRemainder | src/microcode/bignum.c:370-420 | the remainder by a power of two is a mask of the low digit |
| BignumQuotients.TruncatesUnique | src/microcode/bignum.c:249-317 | no other quotient and remainder meet the specification |
| BignumQuotients.OperationsAgree | src/microcode/bignum.c:319-420 | divide, quotient and remainder agree |
| BignumStreams.LongToBignum | src/microcode/bignum.c:436-459 | a normal bignum with the word's value |
| BignumStreams.StreamFits | src/microcode/bignum.c:1457-1460 | the space allocated for a stream of digits is enough for every such stream |
| BignumStreams.BignumDestructiveAdd | src/microcode/bignum.c:1799-1821 | a digit is added in place and no carry is lost |
| BignumStreams.BignumToDigitStream | src/microcode/bignum.c:1474-1497 | emits the radix digits of the magnitude, and ends |
| BignumStreams.DigitStreamToBignum | src/microcode/bignum.c:1441-1472 | the number that the digits stand for, with the sign |
| BignumStreams.RadixDigitsBelow | src/microcode/bignum.c:1474-1497 | every emitted digit is below the radix |
| BignumStreams.RadixDigitAt | src/microcode/bignum.c:1474-1497 | digit i is that of n / radix^i, and the last one emitted is not zero |
| BignumStreams.FedFirst | src/microcode/bignum.c:1441-1472 | the first digit fed counts most |
| BignumStreams.FedReversed | src/microcode/bignum.c:1441-1497 | the emitted digits fed back in reverse give the magnitude |
| BignumStreams.StreamsUndoEachOther | src/microcode/bignum.c:1441-1497 | and with the same sign the same bignum |
| BignumBitwise.BignumBitwiseNot | src/microcode/bignum.c:780-784 | the complement of the two's complement |
| BignumBitwise.DispatchTables | src/microcode/bignum.c:863-914 | for each operation and combination of signs, the unsigned operation chosen is the one for complemented arguments |
| BignumBitwise.OperationsAre | src/microcode/bignum.c:863-914 | what each of the ten operations does with two bits |
| BignumBitwise.PointwiseZero | src/microcode/bignum.c:880-914 | what each operation returns when an argument is zero |
| BignumBitwise.BitwiseDigits | src/microcode/bignum.c:786-809 | operating digit by digit operates on the numbers |
| BignumBitwise.BitwiseMagnitudes | src/microcode/bignum.c:786-809 | the loop over both lengths, with arguments in either order, and the trimming |
| BignumBitwise.BitwiseUnsigned | src/microcode/bignum.c:786-857 | each unsigned operation is pointwise on the two's complements |
| BignumBitwise.BitwiseSigned | src/microcode/bignum.c:863-914 | all ten operations are pointwise on the infinite two's complements, for all signs |
| BignumBitwise.PointwiseUnique | src/microcode/bignum.c:776-778 | one integer only has those bits |
| BignumShifts.BignumShiftLeft | src/microcode/bignum.c:1370-1409 | n * 2^m |
| BignumShifts.AllocatedExactly | src/microcode/bignum.c:1370-1409 | the length computed beforehand is the number of digits of the result |
| BignumShifts.UnsignedLongToShiftedBignum | src/microcode/bignum.c:1411-1439 | a shifted word with a sign |
| BignumShifts.BignumShiftRightUnsigned | src/microcode/bignum.c:1318-1351 | the floor of n / 2^m, but a read past the end exactly when all digits and some bits are shifted out |
| BignumShifts.BignumShiftRight | src/microcode/bignum.c:1353-1368 | the floor of n / 2^m for all signs, but such a read exactly for the missing digit |
| BignumShifts.MissingWhen | src/microcode/bignum.c:1353-1368 | the complement has no digit at that place exactly for the negative of that power of the radix |
| Integers.CanonicalUnique | src/microcode/artutl.c:199-206 | a value has one canonical representation |
| Integers.BignumFitsInWordP | src/microcode/bignum.c:740-774 | the answer for every value and word length |
| Integers.FitsWhen | src/microcode/bignum.c:740-774 | where that answer differs from the range of two's-complement words |
| Integers.SmallWordsRight | src/microcode/bignum.c:740-774 | nowhere for words shorter than a digit |
| Integers.UnsignedRight | src/microcode/bignum.c:740-774 | nor anywhere for unsigned words |
| Integers.LongWordsWrong | src/microcode/bignum.c:740-774 | a number that is accepted and out of range, for longer words |
| Integers.BignumToLong | src/microcode/bignum.c:461-480 | the value |
| Integers.LongToInteger | src/microcode/artutl.c:75-82 | the value in canonical form |
| Integers.BignumToInteger | src/microcode/artutl.c:199-206 | the value in canonical form |
| Integers.IntegerNegate | src/microcode/artutl.c:312-319 | the negative in canonical form, for every mix of fixnum and bignum |
| Integers.IntegerAdd | src/microcode/artutl.c:321-331 | the sum in canonical form, for every mix |
| Integers.IntegerSubtract | src/microcode/artutl.c:342-352 | the difference in canonical form, for every mix |
| Fixnums.ProductParts | src/microcode/mul.c:205-239 | the parts of the product of magnitudes fit in a machine integer and make up the product |
| Fixnums.Mul | src/microcode/mul.c:205-239 | the product of two fixnums if and only if its magnitude is below the least fixnum's, and nothing otherwise |
| Fixnums.LeastFixnum | src/microcode/mul.c:29-30 | the least fixnum is the only one that is not given as a product |
| Integers.IntegerMultiply | src/microcode/artutl.c:363-379 | the product in canonical form, for every mix |
| Integers.IntegerDivide | src/microcode/artutl.c:381-441 | quotient and remainder truncated towards zero, in canonical form; division by zero is reported |
| Integers.IntegerQuotient | src/microcode/artutl.c:443-475 | the quotient, in canonical form |
| Integers.IntegerRemainder | src/microcode/artutl.c:477-508 | the remainder, in canonical form |
| Integers.LongBitwiseBit | src/microcode/artutl.c:596-621 | each bit of an operation on fixnums is the operation on the bits |
| Integers.LongBitwiseRange | src/microcode/artutl.c:596-621 | the result of an operation on fixnums is a fixnum |
| Integers.IntegerBitwiseNot | src/microcode/artutl.c:587-594 | the complement, in canonical form |
| Integers.IntegerBitwise | src/microcode/artutl.c:596-632 | the ten operations are pointwise on two's complements, for every mix |
| Integers.IntegerShiftLeft | src/microcode/artutl.c:659-689 | n * 2^m in canonical form, for every mix |
| Integers.IntegerShiftRight | src/microcode/artutl.c:691-705 | the floor of n / 2^m in canonical form, but for the missing digit |
| Integers.MissingDigitExample | src/microcode/artutl.c:691-705 | the negative of the radix is a canonical bignum, and shifting it right by a digit and a bit meets the missing digit |
| Linker.EntryPlaces | src/microcode/cmpint.c:953-1013 | entry i is at 1 + relocation words + i * UUO_LINK_SIZE for the two operator types and at 1 + i for the others, counted from the header |
| Linker.SectionEnds | src/microcode/cmpint.c:953-1013 | behind the last entry of a section is the next section, unless an empty operator section has relocation words |
| Linker.LinkState.LinkPastEmptySection | src/microcode/cmpint.c:882-1013 | after such a section that is not the last, the linking starts on a relocation word and takes type and count from it |
| Linker.EntryLinked | src/microcode/cmpint.c:953-1013 | linking one entry extends the log by it and leaves the entries to come as they were |
| Linker.SectionDone | src/microcode/cmpint.c:882-895 | a section with all entries linked is the next one with none |
| Linker.EachEntryOnce | src/microcode/cmpint.c:861-1075 | the entries of a block are logged in the block's order, none of them twice |
| Linker.LinkState.StartLinkingSection | src/microcode/cmpint.c:940-950 | type and count are read from the header |
| Linker.LinkState.LinkEntries | src/microcode/cmpint.c:953-1013 | the handler is called on the entries in order until it fails or none is left |
| Linker.LinkState.LinkSection | src/microcode/cmpint.c:952-1013 | the header counts the entries linked, whether the section is finished or backed out of |
| Linker.LinkState.BackOutOfLinkSection | src/microcode/cmpint.c:1047-1059 | what is needed to go on is pushed on the stack |
| Linker.LinkState.RestoreLinkCcState | src/microcode/cmpint.c:1061-1075 | the saved state is popped and is the state of the interrupted section |
| Linker.LinkState.LinkRemainingSections | src/microcode/cmpint.c:882-895 | all sections linked, or backed out in one of them |
| Linker.LinkState.Link | src/microcode/cmpint.c:830-856 | a first attempt links all entries or backs out |
| Linker.LinkState.Restart | src/microcode/cmpint.c:861-880 | a later attempt goes on with the entry that failed |
| Linker.LinkState.Run | src/microcode/cmpint.c:830-1075 | over any number of failures, moves of the block and restarts: where each section starts and each logged entry is, every entry linked once and in order, every header counting the entries linked, all other words as they were; it ends well unless handlers fail more often than there are restarts or a section's type is unknown |
| Frames.Machine.OpenStackGap | src/microcode/cmpint.c:559-568 | the top words move down and the words below the gap stay |
| Frames.Machine.CloseStackGap | src/microcode/cmpint.c:570-579 | the top words move up over the words closed |
| Frames.Machine.RecoverFromApplyError | src/microcode/cmpint.c:581-587 | procedure and frame header on top of the arguments |
| Frames.Machine.OpenGap | src/microcode/cmpint.c:1721-1738 | the arguments in order, default objects for the missing ones, everything below untouched; interrupted exactly when an interrupt is pending or the stack has no room |
| Frames.PairsAreList | src/microcode/cmpint.c:1697-1708 | pairs laid out one after the other are the list of their items |
| Frames.ListsStay | src/microcode/cmpint.c:1697-1708 | lists below the free pointer stay the same lists while the heap grows |
| Frames.Machine.ConsSurplus | src/microcode/cmpint.c:1697-1708 | the surplus arguments in order in pairs from the free pointer on, which is left behind them |
| Frames.Machine.SetupLexprInvocation | src/microcode/cmpint.c:1672-1719 | defaults and an empty rest list, or the surplus arguments as the rest list, with the free pointer behind it; put off exactly without room or with an interrupt pending |
| Frames.Machine.SetupCompiledInvocation | src/microcode/cmpint.c:1631-1670 | for every entry type and number of arguments which code is returned; the frame, or the arguments untouched; all lists made before stay |
| Frames.Machine.Operator1_0Trap | src/microcode/cmpint.c:2280-2285 | the same frame as open_gap for 0 of 1 arguments |
| Frames.Machine.Operator2_0Trap | src/microcode/cmpint.c:2287-2293 | the same frame for 0 of 2 arguments |
| Frames.Machine.Operator2_1Trap | src/microcode/cmpint.c:2295-2304 | the same frame for 1 of 2 arguments |
| Frames.Machine.Operator3_0Trap | src/microcode/cmpint.c:2306-2313 | the same frame for 0 of 3 arguments |
| Frames.Machine.Operator3_1Trap | src/microcode/cmpint.c:2315-2325 | the same frame for 1 of 3 arguments |
| Frames.Machine.Operator3_2Trap | src/microcode/cmpint.c:2327-2338 | the same frame for 2 of 3 arguments |
| Frames.Machine.Operator4_0Trap | src/microcode/cmpint.c:2340-2348 | the same frame for 0 of 4 arguments |
| Frames.Machine.Operator4_1Trap | src/microcode/cmpint.c:2350-2361 | the same frame for 1 of 4 arguments |
| Frames.Machine.Operator4_2Trap | src/microcode/cmpint.c:2363-2375 | the same frame for 2 of 4 arguments |
| Frames.Machine.Operator4_3Trap | src/microcode/cmpint.c:2377-2390 | the same frame for 3 of 4 arguments |
| Frames.Machine.Trampoline | src/microcode/cmpint.c:95-114 | each of them makes the frame of open_gap |
| Frames.ChosenTrampolineFits | src/microcode/cmpint.c:2461-2498 | a direct link exactly for calls without missing arguments or rest list; a trampoline only for the number of arguments it takes and makes |
| Frames.TrampolineWhenever | src/microcode/cmpint.c:2461-2498 | and a trampoline exactly for calls with missing optional arguments, up to four in all, without rest list |
| BitStrings.CopyWord | src/microcode/bitstr.c:362-527 | writing one word, or part of one, continues the bit-by-bit copy |
| BitStrings.MaskedTransfer | src/microcode/bitstr.c:354-360 | the bits under the mask come from the source, the others stay |
| BitStrings.CopyAligned | src/microcode/bitstr.c:383-412 | the bit-by-bit copy, when offsets agree |
| BitStrings.CopyFromAbove | src/microcode/bitstr.c:413-472 | the bit-by-bit copy, when source bits are higher in their words |
| BitStrings.CopyFromBelow | src/microcode/bitstr.c:473-526 | the bit-by-bit copy, when source bits are lower in their words |
| BitStrings.CopyBits | src/microcode/bitstr.c:367-527 | for every pair of offsets and every length, exactly the bits in the range get the source bits in order |
| BitStrings.BitStringRefIs | src/microcode/bitstr.c:309-352 | bit i of a bit string is bit i modulo 64, from the lowest, of the word i / 64 of its bits |
| BitStrings.BitSubstringMoveRight | src/microcode/bitstr.c:309-352 | done exactly for ranges within both strings, and then each bit of the string is the moved one or the old one; otherwise which argument is in error |
| AvlTrees.StrcmpCi | src/microcode/primutl.c:78-98 | the three-way order of the names without regard to case |
| AvlTrees.FoldedIs | src/microcode/primutl.c:78-98 | small letters count as capitals, other characters as themselves |
| AvlTrees.OrderIs | src/microcode/primutl.c:78-98 | the first characters that differ decide, and a beginning comes first |
| AvlTrees.OrderTransitive | src/microcode/primutl.c:78-98 | that order is transitive |
| AvlTrees.OrderReversed | src/microcode/primutl.c:78-98 | and antisymmetric |
| AvlTrees.SizeAtLeastFib | src/microcode/avltree.c:45-54 | a balanced tree of height h has at least Fib(h + 2) - 1 nodes |
| AvlTrees.RotationsKeep | src/microcode/avltree.c:86-108 | rotations keep the order and the entries |
| AvlTrees.InsertAdds | src/microcode/avltree.c:144-169 | insertion keeps the order and adds the name unless it is there |
| AvlTrees.InsertBalances | src/microcode/avltree.c:144-169 | insertion keeps sibling heights within one |
| AvlTrees.InsertInOrder | src/microcode/avltree.c:144-169 | the name as given comes between the others, and nothing changes for a name that is there |
| AvlTrees.InsertionsKeep | src/microcode/avltree.c:144-169 | any sequence of insertions gives a sorted, balanced tree with the first value of each name |
| AvlTrees.LookupFinds | src/microcode/avltree.c:171-189 | lookup agrees with the set of entries |
| AvlTrees.LookupAfterInsertions | src/microcode/avltree.c:144-189 | lookup finds the value of the first insertion of a name, and nothing for other names |
| AvlTrees.BuildBalances | src/microcode/avltree.c:191-215 | a tree built from names is balanced for either bias |
| AvlTrees.BuildSorts | src/microcode/avltree.c:191-215 | and sorted, with the names numbered in order, when they increase |
| AvlTrees.BuildInOrder | src/microcode/avltree.c:191-215 | any names keep their order and are numbered in it |
| AvlTrees.LargerBranch | src/microcode/avltree.c:191-215 | the bias says which branch of an even number of names is larger |
| AvlTrees.BiasTurns | src/microcode/avltree.c:191-215 | the bias left is turned around once for every split of an even number |
| AvlNodes.BranchHeight | src/microcode/avltree.c:56 | the stored height is the height |
| AvlNodes.UpdateHeight | src/microcode/avltree.c:62-67 | the stored height becomes exact again |
| AvlNodes.DoRotateLeft | src/microcode/avltree.c:86-96 | the rotated tree, in the same nodes |
| AvlNodes.DoRotateRite | src/microcode/avltree.c:98-108 | the rotated tree, in the same nodes |
| AvlNodes.DoRebalanceLeft | src/microcode/avltree.c:110-125 | the rebalanced tree, in the same nodes |
| AvlNodes.DoRebalanceRite | src/microcode/avltree.c:127-142 | the rebalanced tree, in the same nodes |
| AvlNodes.TreeInsert | src/microcode/avltree.c:144-169 | the tree with the name inserted, in the old nodes and at most a new one, heights exact; a duplicate is reported exactly for a name that is there |
| AvlNodes.TreeLookup | src/microcode/avltree.c:171-189 | the loop ends at the node of the tree that the search ends at |
| AvlNodes.Builder.TreeBuild | src/microcode/avltree.c:191-215 | the built tree, and the static bias as it is left |
| Blowfish.MutualInverses | src/blowfish/blowfish.c:138-174 | encryption and decryption undo each other, for all P and S tables |
| Blowfish.RoundFunction | src/blowfish/blowfish.c:127-136 | the round function in numbers and bits, from the bytes of its argument |
| Blowfish.XorBits | src/blowfish/blowfish.c:138-155 | the exclusive or, bit by bit |
| Blowfish.SixteenRounds | src/blowfish/blowfish.c:138-155 | encryption is sixteen single rounds with the subkeys in order, the last exchange undone, and two more subkeys |
| Blowfish.BigEndian | src/blowfish/blowfish.c:53-76 | a word's bytes with the highest first |
| Blowfish.BytesOf | src/blowfish/blowfish.c:127-136 | shifting and masking give the four bytes |
| Blowfish.BlowfishEncrypt32 | src/blowfish/blowfish.c:138-155 | the loop is the sixteen rounds of the cipher |
| Blowfish.BlowfishDecrypt32 | src/blowfish/blowfish.c:157-174 | the loop is the rounds in reverse |
| Blowfish.BlockBytes | src/blowfish/blowfish.c:53-76 | blocks and their big-endian bytes determine each other |
| Blowfish.BytesInverse | src/blowfish/blowfish.c:176-200 | the same on bytes |
| BlowfishModes.CbcInverse | src/blowfish/blowfish.c:202-255 | CBC decryption recovers any number of blocks (section 6.2 of NIST SP 800-38A) |
| BlowfishModes.CbcEncryptAt | src/blowfish/blowfish.c:202-224 | each block is the encryption of the data joined with the block before it, the vector for the first |
| BlowfishModes.AtIs | src/blowfish/blowfish.c:202-224 | the blocks of a buffer, eight bytes each, the highest first in either word |
| BlowfishModes.CbcEncryptSplit | src/blowfish/blowfish.c:202-224 | encrypting in parts that thread the vector gives the same as in one call |
| BlowfishModes.CbcDecryptSplit | src/blowfish/blowfish.c:226-255 | so does decrypting |
| BlowfishModes.CbcBytesRoundTrip | src/blowfish/blowfish.c:202-255 | the round trip on bytes |
| BlowfishModes.BlowfishEncryptCbc | src/blowfish/blowfish.c:202-224 | CBC encryption, the vector left for the next part, also when the output is the input |
| BlowfishModes.BlowfishDecryptCbc | src/blowfish/blowfish.c:226-255 | CBC decryption from the last block to the first, also when the output is the input |
| BlowfishModes.RunSplit | src/blowfish/blowfish.c:257-326 | chunks that thread vector and offset give the same as one call, in CFB and OFB |
| BlowfishModes.CfbInverse | src/blowfish/blowfish.c:257-298 | CFB decryption recovers data of any length from any offset (section 6.3 of NIST SP 800-38A) |
| BlowfishModes.OfbInverse | src/blowfish/blowfish.c:300-326 | OFB recovers data of any length from any offset (section 6.4 of NIST SP 800-38A) |
| BlowfishModes.CfbEncryptAt | src/blowfish/blowfish.c:257-275 | each byte is joined with a byte of the encrypted eight output bytes before its block, from any offset |
| BlowfishModes.OfbAt | src/blowfish/blowfish.c:300-318 | each byte is joined with a byte of the vector encrypted once per block, from any offset |
| BlowfishModes.OffsetAfter | src/blowfish/blowfish.c:257-318 | the offset returned counts the bytes since the last block boundary |
| BlowfishModes.XorByteBits | src/blowfish/blowfish.c:257-318 | the exclusive or of bytes, bit by bit |
| BlowfishModes.BlowfishEncryptCfb64 | src/blowfish/blowfish.c:257-275 | the loop is CFB encryption byte by byte, with vector and offset threaded |
| BlowfishModes.BlowfishDecryptCfb64 | src/blowfish/blowfish.c:277-298 | the loop is CFB decryption byte by byte |
| BlowfishModes.BlowfishEncryptOfb64 | src/blowfish/blowfish.c:300-318 | the loop is OFB byte by byte |
| MergeSorting.StrcmpCiByLength | src/microcode/findprim.c:1200-1217 | the same order as the other comparison of names, by a comparison that counts lengths |
| MergeSorting.CompareDescriptors | src/microcode/findprim.c:1184-1198 | the three-way order of the keys |
| MergeSorting.SortPermutes | src/microcode/findprim.c:1094-1182 | sorting permutes |
| MergeSorting.SortIncreases | src/microcode/findprim.c:1094-1182 | sorting distinct keys puts them in increasing order |
| MergeSorting.ClashWhen | src/microcode/findprim.c:1135-1181 | merging ordered halves comes to equal keys if and only if there are any |
| MergeSorting.MergeHalves | src/microcode/findprim.c:1135-1181 | the merge of the halves, unless equal keys are met; nothing outside the range changes |
| MergeSorting.FpMergesort | src/microcode/findprim.c:1094-1182 | the range is sorted and neither array changes outside it, though they change places; a repeated key is reported exactly when there is one |
| MergeSorting.SortBuffer | src/microcode/findprim.c:1077-1092 | the descriptors in the buffer are sorted |

## Left out

- Garbage collection of compiled entries, closures, linkage sections, reference traps and aligned vectors: they depend on machine headers that are not part of this model; a plain vector case stands for vectors.
- GcLoop.Collector.StdGcPt1: asks that no two live ephemerons share a live key; of two that wait for it one stays behind, and a second call for that key does not return (GcWalk.QueuesAllWhen, GcWalk.SecondCallNeverReturns).
- GcLoop.Collector.OpenSpaces: asks the same, for the collection that follows.
- GcLoop.Collector.QueueLiveEphemerons: asks the same.
- GcLoop.Collector.QueueEphemeronsForKey: asks that the walk ends; when that is, is proved (GcWalk.WalkEndsWhen).
- GcLoop.Collector.HandleObject: does not handle compiled entries, returns, aligned vectors and reference traps.
- The ephemeron table is an array of its own here, not a vector in the heap, and its resizing between collections and the count of ephemerons that this needs are not modelled.
- The copy of tospace over newspace after a collection (src/microcode/memmag.c:329-340), tables of objects to be ignored, and the debugging checks that stop the microcode.
- Allocation failure and the exit of the process: allocation succeeds, and tospace is as large as fromspace and the two seeds. That tospace then never overflows is proved.
- Renumbering of primitives, compiled code and the file written by a dump; the transaction that runs the fixups is a call at the end of the dump, finished or not.
- Fasdump.Fasdumper.HandleObject: does not renumber primitives and does not handle compiled code.
- Floating point: conversions between bignums and flonums, and the parts of the integer layer that use them.
- Word wrap-around in the bignum kernels other than multiplication: digits are unbounded integers below the radix. The bounds that the comment on multiplication gives are proved.
- A radix equal to the radix root in digit streams: the scaling helpers ask for less.
- Shifts of bignums are built from sequences of digits, not stored into an array allocated beforehand; that the length computed for that array is right is proved.
- BignumShifts.BignumShiftRight: where the code reads a digit past the end the model gives no value.
- The product of fixnums in assembly language for some machines (src/microcode/mul.c:36-191).
- The operations of the bignum and integer files on bit counts, bit masks, bit fields, hamming distances and lengths in bits.
- Flushing of instruction caches, the transaction around linking and its dynamic state; the handlers for linkage entries are any handlers that succeed or leave everything as it was, with answers given beforehand.
- Linker.LinkState.Run: excludes the one layout that the scan pointer does not follow, an empty operator section with relocation words that is not the last; what happens there is proved (Linker.LinkState.LinkPastEmptySection).
- Linker.LinkState.LinkRemainingSections: excludes the same layout.
- Linker.LinkState.Link: excludes the same layout.
- Linker.LinkState.Restart: excludes the same layout.
- Frames.Machine.RecoverFromApplyError: leaves out guarantee_interp_return, which prepares the stack for the interpreter.
- The encoding of entry types in format words, and trampoline headers. Interrupt masks: stack overflow and garbage collection are enabled interrupts.
- BitStrings.BitSubstringMoveRight: is about two different bit strings; moving bits within one is not modelled.
- Bit strings on big-endian machines, and conversions between bit strings and numbers.
- Blowfish's key schedule and tables: the subkeys are arbitrary. The vector is not part of the data, and input and output are one buffer or do not overlap.
- The output of find-primitives, its scanner and its options; what the sort prints when a key is repeated.
