# libcoring: verified models of its hard pieces

This project models the self-contained pieces of libcoring (an io_uring and coroutine
network library) in which the state or the arithmetic is hard to get right, and proves
what they promise. `dafny verify dfyconfig.toml` checks everything.

| files | what they model |
|---|---|
| `SkipList.dfy`, `SkipListRuns.dfy` | the timer's skip list as linked nodes, against a sorted sequence |
| `Words.dfy`, `SpscRing.dfy`, `RingProtocol.dfy` | the single-producer single-consumer ring, alone and in every interleaving |
| `AsyncLogger.dfy`, `LoggerPolls.dfy` | many rings to one file: logging threads, the background thread, `stop`; when a poll writes |
| `BigIntSpec.dfy`, `BigInt.dfy`, `BigIntDivision.dfy`, `DivisionEnds.dfy`, `Pow10.dfy`, `Dragon.dfy` | fmt's `bigint` and fixed-digit `format_dragon` |
| `Digits.dfy`, `DecimalText.dfy` | digit counting, `format_decimal`, `parse_nonnegative_int` |
| `FormatParse.dfy`, `FormatPieces.dfy`, `FormatStrings.dfy`, `FormatThrows.dfy`, `FormatParser.dfy` | fmt's format-string parser: both paths, what whole strings make it call, handlers that throw, faulty strings |
| `HttpParser.dfy`, `HttpContext.dfy`, `HttpMessages.dfy`, `HttpRequests.dfy` | the incremental HTTP/1.x parser (sections 5.1 and 4.2 of RFC 2616) and the header printer |
| `AutoResetEvent.dfy`, `Counting.dfy` | the wake-up and counting protocols over atomics |
| `CompletionQueue.dfy` | completion dispatch with re-entrant release of entries |
| `TimerSpec.dfy`, `Timer.dfy`, `TimerRuns.dfy` | the timer on its queue, the timer loop, and its whole runs |

Conventions of the model:

- Code that mutates objects is a class with methods; each method is tied to a function of
  the old state, and the laws are proved about those functions. Protocols that live on
  interleavings are state machines whose steps are the atomic accesses; a run is any
  sequence of steps, and memory is sequentially consistent.
- Integers are unbounded; machine words are explicit. Ring indices wrap at 2^64,
  completion-queue indices and `unsigned` accumulators at 2^32, `bigint` words are below 2^32
  and every carry is shown to fit the variable that holds it.
- `random_level`, the clock, what a resumed coroutine does, when the kernel posts, what a
  format handler answers, and the order of a header map are parameters of any value.
- Values carried by the skip list and the ring are opaque numbers, standing for coroutine
  handles and log entries.
- Skip-list keys are at most `maxKey`, and the keys of `erase_one` and of the drains are
  below it, because those searches would otherwise reach the tail sentinel.

Where the code does less than its comments say, the code is followed:

- `subtract_aligned` does not move on while a borrow is left, so it is exact if and only if
  the borrow meets a nonzero word (`SubtractAligned`, and `BorrowIsLost` for an input where it
  is not).
- For the same reason the loop of `divmod_assign` ends if and only if the dividend has at most
  one word more than the divisor (`DivisionEnds`; on 2^64 and 1 it does not, `NeverEnds`).
- `compare` breaks ties between equal values by word count, so `divmod_assign`, where its loop
  ends, leaves the floor remainder if and only if the dividend is not equal to the divisor with
  a larger exponent (`DivmodAssign`; `EqualDivision` is such a pair). `format_dragon` never divides
  such a pair (`ScaledTieFree`), nor one of which the dividend is too long (`AtMostOneWordMore`).
- The search for the top bit in `assign_pow10` ends if and only if the exponent is below 2^30
  (`MaskSearchEnds`); the result is exact on all those exponents.
- `parse_nonnegative_int` counts leading zeros as digits (`PaddedReadBack`).
- The assertion in `on_work_started` does not keep a start from coming too late: it looks at
  the counter in one access and adds in another (`LateStart`). The waiter waits for all work
  if and only if no start adds to a counter that is zero (`WaitsForAll`,
  `WaitsForTimelyStarts`).
- The ring's comment asks for a power-of-two capacity, its assertion only for an even one; the
  model takes powers of two from 2 up.

## Model

| member | source | states |
|---|---|---|
| `SkipList.SkipListMap.constructor` | include/coring/detail/skiplist_map.hpp:91-98 | all thirty-two levels lead from head to tail, the list is empty and well formed |
| `SkipList.SkipListMap.FindPrevs` | include/coring/detail/skiplist_map.hpp:111-120 | on every level in use, the last node before the first key not below the one sought |
| `SkipList.SkipListMap.FindUpperPrevs` | include/coring/detail/skiplist_map.hpp:122-131 | on every level in use, the last node before the first key above the one sought |
| `SkipList.SkipListMap.Contains` | include/coring/detail/skiplist_map.hpp:141-147 | true exactly for the keys in the contents and for the tail's own key |
| `SkipList.SkipListMap.Emplace` | include/coring/detail/skiplist_map.hpp:187-202 | for every height the structure is kept, the entry is put in front of its equals, the length grows by one |
| `SkipList.LinkNode` | include/coring/detail/skiplist_map.hpp:197-200 | the new node takes over its predecessors' pointers on its levels and no other pointer changes |
| `SkipList.SkipListMap.EraseOne` | include/coring/detail/skiplist_map.hpp:204-215 | reports whether the key was there, removes the first entry with it and nothing else |
| `SkipList.UnlinkNode` | include/coring/detail/skiplist_map.hpp:208-210 | the predecessors skip the node on its levels and no other pointer changes |
| `SkipList.SkipListMap.Shrink` | include/coring/detail/skiplist_map.hpp:212-212 | the level bound drops to the highest level in use and the structure is kept |
| `SkipList.SkipListMap.PopLessEq` | include/coring/detail/skiplist_map.hpp:217-239 | returns the payloads of the prefix up to the key in order and keeps exactly the rest |
| `SkipList.DetachPrefix` | include/coring/detail/skiplist_map.hpp:225-228 | the head takes over the last detached pointers, which become null |
| `SkipList.SkipListMap.CutOff` | include/coring/detail/skiplist_map.hpp:242-251 | the detached nodes form a chain to null, disjoint from a list that is well formed again |
| `SkipList.SkipListMap.DoLessEqThenPop` | include/coring/detail/skiplist_map.hpp:241-263 | with a callback inserting anything at any height, visits the old prefix once in order, keeps every new entry, and ends with the full invariant and length |
| `SkipList.SkipListMap.VisitNext` | include/coring/detail/skiplist_map.hpp:254-260 | a callback that inserts changes neither the chain being walked nor the rest of the list's structure |
| `SkipListRuns.LevelStructure` | include/coring/detail/skiplist_map.hpp:76-98 | each level's pointers walk head to tail through sorted nodes, the next level is the sub-list of the higher nodes, unused levels are empty |
| `SkipListRuns.Run` | include/coring/detail/skiplist_map.hpp:169-263 | every sequence of operations on the pointer structure gives the contents and answers of the sorted-sequence reference |
| `SkipListRuns.RunConserves` | include/coring/detail/skiplist_map.hpp:169-263 | over every run the contents are sorted, and what is in the list plus what was taken out is what was put in |
| `SkipListRuns.InsertPlace` | include/coring/detail/skiplist_map.hpp:187-202 | insertion adds one entry, in front of exactly the entries not below it |
| `SkipListRuns.DrainExact` | include/coring/detail/skiplist_map.hpp:241-263 | a drain takes exactly the entries at or below the bound, a prefix, and the inserted ones all stay |
| `RingIndices.SlotOfCount` | include/coring/detail/logging/spsc_ring.hpp:67-74 | masking an index that has wrapped at the machine word gives the slot of the unbounded count |
| `RingIndices.WrappedDifference` | include/coring/detail/logging/spsc_ring.hpp:90-90 | the difference of wrapped indices is the difference of the counts |
| `RingIndices.BatchSlots` | include/coring/detail/logging/spsc_ring.hpp:167-177 | both copy cases read the next slots in order, and equal masked indices cannot occur |
| `SpscRing.Ring.TryEmplace` | include/coring/detail/logging/spsc_ring.hpp:85-102 | appends exactly when fewer than capacity - 1 items are held |
| `SpscRing.Ring.Front` | include/coring/detail/logging/spsc_ring.hpp:124-133 | the oldest item, absent exactly when empty |
| `SpscRing.Ring.Pop` | include/coring/detail/logging/spsc_ring.hpp:135-146 | removes the oldest item |
| `SpscRing.Ring.Size` | include/coring/detail/logging/spsc_ring.hpp:148-156 | the number of items, at most capacity - 1 |
| `SpscRing.Ring.CopyOut` | include/coring/detail/logging/spsc_ring.hpp:166-177 | the one- or two-block copy yields the whole contents in order |
| `SpscRing.Ring.BatchOut` | include/coring/detail/logging/spsc_ring.hpp:158-183 | appends the whole contents to the vector and ends with the indices of an empty ring |
| `SpscRing.Ring.PopAll` | include/coring/detail/logging/spsc_ring.hpp:124-146 | repeating front and pop has exactly the contract of `BatchOut` |
| `RingProtocol.StepKeeps` | include/coring/detail/logging/spsc_ring.hpp:59-183 | every atomic step of either side keeps the protocol's invariant |
| `RingProtocol.RunIsFifo` | include/coring/detail/logging/spsc_ring.hpp:59-183 | in every interleaving what is consumed is a prefix of what is produced, occupancy stays below capacity, slots hold what is pending, and the slot to be built in holds none of it |
| `RingProtocol.RoomIsExact` | include/coring/detail/logging/spsc_ring.hpp:62-68 | what the producer computes at its read of the other index is the exact room at that moment |
| `RingProtocol.EntriesAreExact` | include/coring/detail/logging/spsc_ring.hpp:159-162 | what the consumer computes at its read of the other index is the exact number of items |
| `RingProtocol.BuildsIntoFreeSlot` | include/coring/detail/logging/spsc_ring.hpp:72-76 | with room seen earlier, the slot built into holds no unconsumed item |
| `RingProtocol.CopyReadsNext` | include/coring/detail/logging/spsc_ring.hpp:166-177 | each element copied in bulk is the next one produced, whatever the producer does meanwhile |
| `RingProtocol.StepIsQueueStep` | include/coring/detail/logging/spsc_ring.hpp:59-183 | the ring is a queue: publishing appends, a batch's look at the write index takes all there is and delivers exactly that, releasing a front item removes it, and no other step changes it |
| `RingProtocol.LookFindsFront` | include/coring/detail/logging/spsc_ring.hpp:124-133 | the consumer's look goes on to the front item, or to a batch of all there is, exactly when something is published |
| `RingProtocol.LookSeesRoom` | include/coring/detail/logging/spsc_ring.hpp:59-68 | the producer's look goes on exactly when fewer than capacity - 1 items are inside; otherwise `emplace` looks again and `try_emplace` gives up |
| `AsyncLogger.StepKeeps` | source/logging/async_logger.cpp:36-109 | every step of a logging thread, of the background thread and of `stop` keeps the invariant |
| `AsyncLogger.NothingLost` | source/logging/async_logger.cpp:36-93 | in every run, for each thread, file then buffer then backlog then ring is exactly what it appended, in order |
| `AsyncLogger.StopFlushes` | source/logging/async_logger.cpp:95-148 | when the loop has ended, each thread's file entries contain all appended before the stop request, once and in order |
| `AsyncLogger.StopReturns` | source/logging/async_logger.cpp:48-109 | from every reachable state with a stop requested, on every schedule that keeps scheduling the background thread, whatever other threads push and register, it finishes |
| `AsyncLogger.OthersDoNotDelay` | source/logging/async_logger.cpp:36-46 | after a stop request no step of another thread adds to what the background thread has ahead of it |
| `AsyncLogger.StopDelivers` | source/logging/async_logger.cpp:95-148 | from every reachable state with a stop requested, on every fair schedule, the background thread finishes with every entry from before the request in the file, once and in order per thread |
| `LoggerPolls.PollDelivers` | source/logging/async_logger.cpp:48-93 | from every reachable state in which a poll begins with a flush forced, no stop assumed, on every fair schedule with any steps of other threads, the poll ends with nothing half-way and every entry appended before it in the file, in order per thread |
| `LoggerPolls.WaitDelivers` | source/logging/async_logger.cpp:95-103 | from every reachable wait of the background thread, on every fair schedule, every entry appended by then reaches the file, stop or no stop |
| `LoggerPolls.BufferStaysSmall` | source/logging/async_logger.cpp:85-92 | in every run the buffer is below the flush limit whenever no poll is under way: a poll without a forced flush writes what has reached it |
| `LoggerPolls.WritesOnlyWhenDue` | source/logging/async_logger.cpp:85-92 | the file grows only at the end of a poll, by the whole buffer, and only if forced or at the limit |
| `LoggerPolls.StopCallDelivers` | source/logging/async_logger.cpp:134-148 | from the state in which stop is called, on every fair schedule, the background thread finishes with everything appended until then in the file, in order per thread |
| `BigIntSpec.Times32Splits` | include/coring/detail/logging/fmt/format-inl.h:394-396 | one word step of the 32-bit multiply is exact and its carry fits a word |
| `BigIntSpec.Times64Splits` | include/coring/detail/logging/fmt/format-inl.h:402-410 | one word step of the 64-bit multiply is exact and its carry fits two words |
| `BigIntSpec.Times64FitsTightly` | include/coring/detail/logging/fmt/format-inl.h:408-408 | the largest carry is the largest 64-bit value: no slack |
| `BigIntSpec.ShiftSplits` | include/coring/detail/logging/fmt/format-inl.h:452-454 | one word step of the shift is exact multiplication by a power of two |
| `BigIntSpec.ScaledVal` | include/coring/detail/logging/fmt/format-inl.h:390-415 | a whole carry ripple multiplies the value and keeps a nonzero top word |
| `BigIntSpec.SquareVal` | include/coring/detail/logging/fmt/format-inl.h:530-547 | the carried columns are the words of the square, with no carry left over |
| `BigIntSpec.SubAtVal` | include/coring/detail/logging/fmt/format-inl.h:383-386 | the subtraction loops are exact if and only if the borrow is paid by the word above |
| `BigInt.BigInt.AssignWord` | include/coring/detail/logging/fmt/format-inl.h:433-441 | the value of a 64-bit word, without leading zero words |
| `BigInt.BigInt.Assign` | include/coring/detail/logging/fmt/format-inl.h:425-431 | whatever was held before, the resize and word-by-word copy leave the other's value and normalisation |
| `BigInt.BigInt.Multiply32` | include/coring/detail/logging/fmt/format-inl.h:390-399 | the exact product |
| `BigInt.BigInt.Multiply64` | include/coring/detail/logging/fmt/format-inl.h:401-415 | the exact product with a 64-bit factor |
| `BigInt.BigInt.ShiftLeft` | include/coring/detail/logging/fmt/format-inl.h:445-458 | the exact product with a power of two, words and remainder bits split |
| `BigInt.BigInt.Square` | include/coring/detail/logging/fmt/format-inl.h:524-550 | the exact square, leading zeros removed, exponent doubled |
| `BigInt.ColumnSum` | include/coring/detail/logging/fmt/format-inl.h:534-544 | both inner loops add exactly the cross products of one column |
| `BigInt.SumFits` | include/coring/detail/logging/fmt/format-inl.h:529-546 | the accumulator stays below the number of words times 2^64, hence below 2^96 for a word count that fits a word, so neither the 128-bit nor the emulated accumulator overflows |
| `BigIntDivision.Compare` | include/coring/detail/logging/fmt/format-inl.h:467-480 | the order of the values for top-normalised operands; equal values are ordered by word count |
| `BigIntDivision.AddCompare` | include/coring/detail/logging/fmt/format-inl.h:483-502 | the sign of lhs1 + lhs2 - rhs |
| `BigIntDivision.Align` | include/coring/detail/logging/fmt/format-inl.h:554-562 | the value is kept and the exponent is at most the other's |
| `BigIntDivision.SubtractAligned` | include/coring/detail/logging/fmt/format-inl.h:380-388 | the difference is exact if and only if the borrow meets a nonzero word; no leading zero words are left |
| `BigIntDivision.BorrowIsLost` | include/coring/detail/logging/fmt/format-inl.h:386-386 | 2^64 - 1 is computed wrongly because the borrow does not move on |
| `BigIntDivision.TopPaysBorrow` | include/coring/detail/logging/fmt/format-inl.h:380-388 | with at most one word more than the subtrahend, the borrow is always paid |
| `BigIntDivision.DivmodAssign` | include/coring/detail/logging/fmt/format-inl.h:566-577 | for a dividend at most one word longer than the divisor, which is exactly when the loop ends: quotient times divisor plus remainder is the dividend; the remainder is below the divisor if and only if the two were not equal with a larger dividend exponent; the quotient fits an int if and only if the dividend is below 2^31 divisors |
| `DivisionEnds.DivisionEnds` | include/coring/detail/logging/fmt/format-inl.h:570-576 | for operands with nonzero top words, of which the dividend is not smaller, the loop ends if and only if the dividend has at most one word more than the divisor |
| `DivisionEnds.TurnsAreQuotient` | include/coring/detail/logging/fmt/format-inl.h:571-576 | on such a dividend the loop makes as many turns as the divisor fits into it |
| `DivisionEnds.NeverEnds` | include/coring/detail/logging/fmt/format-inl.h:385-386 | 2^64 divided by 1 never ends, because the top word is out of the subtraction's reach |
| `BigIntDivision.EqualDivision` | include/coring/detail/logging/fmt/format-inl.h:478-478 | 2^32 built by a shift, divided by 2^32 built from a word, gives quotient 0 and remainder 2^32 |
| `Pow10.MaskSearchEnds` | include/coring/detail/logging/fmt/format-inl.h:508-511 | the search for the top bit ends if and only if the exponent is below 2^30 |
| `Pow10.AssignPow10` | include/coring/detail/logging/fmt/format-inl.h:505-522 | exactly ten to the exponent |
| `Dragon.RatioIsValue` | include/coring/detail/logging/fmt/format-inl.h:2135-2135 | numerator over denominator times 10^exp10 is f times 2^e, cross-multiplied |
| `Dragon.Scale` | include/coring/detail/logging/fmt/format-inl.h:2100-2134 | in all three branches numerator and denominator have the values of the reference |
| `Dragon.ScaledTieFree` | include/coring/detail/logging/fmt/format-inl.h:2102-2128 | no numerator met while generating digits equals the denominator with a larger exponent |
| `Dragon.GenerateDigits` | include/coring/detail/logging/fmt/format-inl.h:2174-2179 | digits so far plus remainder is the value, exactly, through the loop |
| `Dragon.PropagateCarry` | include/coring/detail/logging/fmt/format-inl.h:2182-2194 | the carry keeps the value; all nines become a one and bump the exponent |
| `Dragon.RoundDigits` | include/coring/detail/logging/fmt/format-inl.h:2180-2198 | the digits are the nearest, ties to even |
| `Dragon.NoDigits` | include/coring/detail/logging/fmt/format-inl.h:2167-2172 | with no digits asked for, the single digit is the nearest, ties to even |
| `Dragon.NearestToValue` | include/coring/detail/logging/fmt/format-inl.h:2135-2135 | what is nearest in terms of numerator and denominator is nearest to f times 2^e in units of the last place |
| `Dragon.FormatDragon` | include/coring/detail/logging/fmt/format-inl.h:2089-2199 | for every value and digit count the digits times 10^exp10 are the decimal with that last place nearest to f times 2^e, ties to even, the all-nines carry included |
| `Digits.CountDigitsFallback` | include/coring/detail/logging/fmt/format.h:894-908 | the length of the decimal text |
| `Digits.CountDigits64IsLength` | include/coring/detail/logging/fmt/format.h:915-928 | the table form gives the length of the decimal text for every 64-bit value |
| `Digits.Table64Fits` | include/coring/detail/logging/fmt/format.h:920-924 | all sixty-four table entries bracket the digit counts of their bit lengths |
| `Digits.CountDigits32IsLength` | include/coring/detail/logging/fmt/format.h:964-983 | the carry into the upper half gives the length of the decimal text for every 32-bit value |
| `Digits.LengthAtMost` | include/coring/detail/logging/fmt/format.h:933-934 | a number has at most k digits exactly when it is below 10^k |
| `Digits.DecimalReads` | include/coring/detail/logging/fmt/format.h:1066-1085 | the decimal text denotes the number |
| `DecimalText.Digits2At` | include/coring/detail/logging/fmt/format.h:875-882 | every pair of the table is the two-digit text of its index |
| `DecimalText.FormatDecimal` | include/coring/detail/logging/fmt/format.h:1066-1086 | exactly the decimal text, right-aligned in the space given, nothing else touched |
| `DecimalText.ParseNonnegativeInt` | include/coring/detail/logging/fmt/core.h:2080-2097 | despite the wrapping accumulator: the value of the run of digits if it has at most ten digits and fits an int, otherwise the error value, and the position behind the run |
| `DecimalText.ReadBack` | include/coring/detail/logging/fmt/core.h:2080-2097 | decimal text is read back exactly up to INT_MAX, larger numbers give the error value |
| `DecimalText.PaddedReadBack` | include/coring/detail/logging/fmt/core.h:2090-2096 | a number padded with zeros is read back if and only if it takes at most ten characters |
| `FormatParse.PathsAgree` | include/coring/detail/logging/fmt/core.h:2391-2436 | on every string and with every handler both paths make the same calls up to empty texts, to the first call that throws |
| `FormatParse.SimpleWrites` | include/coring/detail/logging/fmt/core.h:2397-2427 | on text without an opening brace the simple loop makes the writer's calls |
| `FormatParse.FieldSeen` | include/coring/detail/logging/fmt/core.h:2355-2388 | a field is parsed alike after histories that differ in empty texts |
| `FormatParse.DoubledReadsBack` | include/coring/detail/logging/fmt/core.h:2391-2436 | doubling all braces of any text and parsing it on either path gives only text, and that text |
| `FormatParse.IndexReadsBack` | include/coring/detail/logging/fmt/core.h:2144-2158 | a decimal argument index is read back, capped at INT_MAX |
| `FormatParse.ParseArgId` | include/coring/detail/logging/fmt/core.h:2143-2178 | the event and end of an argument id: automatic, index, name or error |
| `FormatParse.FieldReadsBack` | include/coring/detail/logging/fmt/core.h:2355-2388 | a field written with the next argument, an index or a name asks the handler for exactly that argument and replaces in its answer |
| `FormatParse.SpecsReadBack` | include/coring/detail/logging/fmt/core.h:2380-2383 | with specs behind the id, the handler reads them and the field ends behind the brace it stops at; stopping elsewhere is an error |
| `FormatParse.FieldShape` | include/coring/detail/logging/fmt/core.h:2355-2388 | a field after which the parser goes on is an escape or a written id with its closing brace or its specs: nothing else is accepted |
| `FormatParse.ParseShort` | include/coring/detail/logging/fmt/core.h:2397-2413 | the loop makes the calls of the recursive reference |
| `FormatParse.WriteText` | include/coring/detail/logging/fmt/core.h:2414-2427 | the writer's loop makes the calls of its reference |
| `FormatParse.ParseLong` | include/coring/detail/logging/fmt/core.h:2428-2435 | the two-pass loop makes the calls of its reference |
| `FormatParser.ParseFormatString` | include/coring/detail/logging/fmt/core.h:2391-2436 | a string written from pieces makes the calls of its pieces, a faulty one those of the pieces before the fault and the fault's error, both up to the first call that throws; whatever it gets through is written from pieces and has made their calls; doubled braces come back as text; both paths make the same visible calls |
| `FormatStrings.StringReadsBack` | include/coring/detail/logging/fmt/core.h:2391-2436 | any list of texts with doubled braces, fields with an id, and fields with an id and specs: when nothing throws, the visible calls are exactly theirs in order, neighbouring texts joined: text, the argument asked for, then the answer with the place of the closing brace, or the specs with their start |
| `FormatStrings.AcceptedIsWritten` | include/coring/detail/logging/fmt/core.h:2391-2436 | when nothing throws, whatever the parser gets through is written from such pieces, and the visible calls made are exactly theirs |
| `FormatThrows.ThrowsCutShort` | include/coring/detail/logging/fmt/core.h:2391-2436 | on both paths a handler that throws sees what it would have seen, had it not thrown, up to and including the first call that throws |
| `FormatThrows.PiecesAreTold` | include/coring/detail/logging/fmt/core.h:2391-2436 | with any handler, the calls on a written string are those of its pieces up to the first that throws |
| `FormatThrows.CalmIsToldAll` | include/coring/detail/logging/fmt/core.h:2391-2436 | a handler that never throws gets all of them |
| `FormatParser.FaultIsReported` | include/coring/detail/logging/fmt/core.h:2355-2388 | behind any pieces, a lone brace, a field without an id, an index or name not followed by brace or colon, and specs not read to a brace are reported with their own error, after the calls already due and on both paths |
| `FormatParser.AcceptedIsTold` | include/coring/detail/logging/fmt/core.h:2391-2436 | with any handler, a string it gets through is written from pieces whose calls are exactly those made |
| `HttpSpec.FirstCrlf` | include/coring/buffer.hpp:128-131 | it is a CRLF with none before it; -1 means there is none |
| `HttpSpec.ParseSplit` | examples/http1/http_context.hpp:31-71 | parsing a part, keeping what was not consumed and going on with the rest is parsing the whole |
| `HttpSpec.ChunkingIsInvisible` | examples/http1/http_context.hpp:31-71 | any chunking gives the verdict, state, request and consumed count of one call on the concatenation |
| `HttpSpec.UnfinishedIsEnterable` | examples/http1/http_context.hpp:31-71 | a call that neither failed nor saw all headers leaves a state in which the loop has an exit |
| `HttpContext.Buffer.HasRead` | include/coring/buffer.hpp:64-73 | the readable bytes lose exactly the given prefix |
| `HttpContext.RequestObject.SetMethod` | examples/http1/http_request.hpp:30-72 | accepted are exactly the names that `methodString` gives to the valid methods, and the method stored is named as it was read |
| `HttpSpec.MethodNames` | examples/http1/http_request.hpp:30-72 | reading a method and naming it are inverse to each other |
| `HttpContext.RequestObject.SetPath` | examples/http1/http_request.hpp:74-82 | the path under `public`, with the index page for the root |
| `HttpContext.RequestObject.AddHeaderLine` | examples/http1/http_request.hpp:90-103 | the name before the colon maps to the value without surrounding white space |
| `HttpContext.RequestObject.ProcessRequestLine` | examples/http1/http_context.hpp:86-115 | verdict and every field written, on the failing paths too |
| `HttpContext.ContextObject.ParseRequest` | examples/http1/http_context.hpp:31-71 | the loop ends, every turn that goes on consuming a line and its CRLF, with the outcome of the reference |
| `HttpContext.Receive` | examples/http1/http_context.hpp:31-71 | a connection fed chunk by chunk ends as one call on the whole stream would, with exactly the unconsumed bytes of the chunks read left in the buffer |
| `HttpMessages.LineIsRead` | examples/http1/http_context.hpp:86-115 | a line of the accepted shape sets method, path, query and version to its parts |
| `HttpMessages.AcceptedLineHasShape` | examples/http1/http_context.hpp:86-115 | only lines of that shape are accepted |
| `HttpRequests.RequestIsRead` | examples/http1/http_context.hpp:31-115 | a whole request, given as text, is read as what it says: method and version, `public` and the path or the index page, the query from the question mark on, the header map; exactly its bytes are consumed and what follows is untouched |
| `HttpRequests.HeadersAreRead` | examples/http1/http_context.hpp:51-68 | header lines with any white space around their values are stored in order, and the first line without a colon ends them |
| `HttpRequests.FirstLineDecides` | examples/http1/http_context.hpp:37-50 | without a CRLF nothing happens; with one the parser goes on to the headers if and only if the first line has the shape of a request line, and otherwise fails with nothing consumed |
| `HttpRequests.ShapedIsAccepted` | examples/http1/http_context.hpp:86-115 | a line is accepted if and only if it is a method's name, a target without blanks and HTTP/1.0 or HTTP/1.1, with a blank between each |
| `HttpMessages.Response.AppendToBuffer` | examples/http1/http_response.hpp:118-131 | status line, connection line, one line per header, empty line, appended to what was readable |
| `HttpMessages.StatusLineParts` | examples/http1/http_response.hpp:121-121 | split at its first two blanks, the status line gives HTTP/1.0, the code and the message |
| `HttpMessages.PrintedHeadersReadBack` | examples/http1/http_response.hpp:118-131 | the header block read by the parser gives the `Connection` entry, `close` or `Keep-Alive`, overridden by the headers, ends in `GotAll` and is consumed to the last byte |
| `AutoResetEvent.StepKeeps` | include/coring/single_consumer_async_auto_reset_event.hpp:33-77 | every atomic step of any number of `set()` calls and the consumer keeps the invariant |
| `AutoResetEvent.NoLostWakeup` | include/coring/single_consumer_async_auto_reset_event.hpp:33-77 | in every run a consumer suspended with an unseen call has exactly one call on its way to it, each past suspension was ended by one call, and every call is seen once and in order |
| `AutoResetEvent.FailsOnlyWhenSet` | include/coring/single_consumer_async_auto_reset_event.hpp:60-76 | the consumer's compare-exchange fails only on a set event |
| `AutoResetEvent.WakerDelivers` | include/coring/single_consumer_async_auto_reset_event.hpp:33-52 | the call on its way resumes the consumer with only its own steps |
| `AutoResetEvent.AwaitOutcome` | include/coring/single_consumer_async_auto_reset_event.hpp:54-77 | awaiting passes at once exactly if a call is unseen, and has then seen all that were; otherwise it suspends |
| `AutoResetEvent.CallOutcome` | include/coring/single_consumer_async_auto_reset_event.hpp:33-52 | a call that finds the consumer waiting is the one on its way to it |
| `Counting.StepKeeps` | include/coring/async_scope.hpp:61-91 | every load and add of a start, finish, resume and step of the join keeps the waiter let go exactly as often as it should, except an add to a counter that is zero, whose overrun no later step makes good |
| `Counting.WaitsForAll` | include/coring/async_scope.hpp:61-91 | in every interleaving the counter is the unfinished work plus one until the waiter arrives, and the waiter goes on at most once with no work left, if and only if no starter adds to a counter that is zero |
| `Counting.WaitsForTimelyStarts` | include/coring/async_scope.hpp:61-91 | the same if and only if every start adds before the waiter's subtraction or while other work is unfinished |
| `Counting.LateStart` | include/coring/async_scope.hpp:88-91 | a run that passes the assertion and in which the waiter goes on with work unfinished, and then a second time |
| `Counting.SettledHasGoneOn` | include/coring/async_scope.hpp:61-91 | a run in which only new starts could still happen has let the waiter go on, exactly once if and only if no starter added to a counter that was zero |
| `Counting.StepsAreFew` | include/coring/async_scope.hpp:61-91 | every step other than a new start's look uses up a bounded quantity |
| `WhenAll.GoesOnExactlyOnce` | include/coring/detail/async/when_all_ready_awaitable.hpp:154-160 | for every number of tasks finishing at once or later, the awaiting coroutine goes on at most once, after all tasks, and a run that can go no further has let it go on |
| `WhenAll.MoveKeeps` | include/coring/detail/async/when_all_counter.hpp:16-33 | every launch, completion and step of the waiter keeps the invariant |
| `CompletionQueue.SlotOf32` | include/coring/detail/io/io_uring_context.hpp:93-96 | masking a wrapped 32-bit head gives the slot of the unbounded count |
| `CompletionQueue.PostKeeps` | include/coring/detail/io/io_uring_context.hpp:93-111 | a completion the kernel posts overwrites no entry that has not been released |
| `CompletionQueue.Context.ReleaseTaken` | include/coring/detail/io/io_uring_context.hpp:109-110 | exactly the taken entries are released |
| `CompletionQueue.Context.GetSqeSafe` | include/coring/detail/io/io_uring_context.hpp:623-647 | spinning any number of times keeps khead plus cqe_count equal to the completions taken |
| `CompletionQueue.Context.TakeOne` | include/coring/detail/io/io_uring_context.hpp:96-103 | the entry read is the next completion, it is taken once, and it is added to those resolved if and only if its data is a token, neither null nor the timeout mark |
| `CompletionQueue.Context.HandleCompletions` | include/coring/detail/io/io_uring_context.hpp:93-111 | with any re-entrant calls and postings meanwhile, also after the last look at the tail: the completions resolved are, in order, exactly those at the ascending places between the old and the new count taken whose data is a token, with their results; every completion posted before the last look is taken, exactly those are released, and cqe_count is zero |
| `CompletionQueue.IndicesCompare` | include/coring/detail/io/io_uring_context.hpp:96-96 | comparing wrapped indices tells exactly whether a completion is left |
| `TimerSpec.HandleEventsExact` | include/coring/timer.hpp:55-74 | both drains together lose and double nothing, resume nothing early, go in order, and only the second drain's registrations can be left overdue |
| `TimerSpec.StepKeeps` | include/coring/io_context.hpp:175-184 | starting, registering, firing and stopping keep the invariant |
| `TimerSpec.TimersRunOnce` | include/coring/io_context.hpp:175-184 | over every run each timer is resumed at most once and never before its wakeup point, one not resumed is still queued, and the loop is parked only with nothing queued |
| `TimerSpec.ParkedIsWoken` | include/coring/io_context.hpp:251-256 | a registration while the loop is parked arms it unless it was stopped |
| `TimerSpec.NotStranded` | include/coring/io_context.hpp:175-184 | in every run in which the loop was started and nobody stopped it, it waits for a kernel timeout exactly while timers are queued, and for the event otherwise |
| `TimerSpec.EndsOnlyWhenStopped` | include/coring/io_context.hpp:176-176 | the loop has ended only if somebody stopped it |
| `TimerSpec.StartOutcome` | include/coring/io_context.hpp:175-183 | where a start leads: the end if stopped before, else a kernel timeout or the event |
| `TimerSpec.RegisterOutcome` | include/coring/io_context.hpp:251-256 | what a registration queues; a parked loop goes on to the kernel timeout, or ends if it was stopped, and any other stays with the event set |
| `TimerSpec.FireOutcome` | include/coring/io_context.hpp:177-182 | after a timeout: again a kernel timeout exactly if timers are left, else the end exactly if stopped with the event set, else the event |
| `TimerSpec.DueIsResumed` | include/coring/timer.hpp:55-74 | whenever the timeout fires, with any registrations meanwhile, every due timer that was queued or registered by the first drain's coroutines has been resumed afterwards |
| `TimerSpec.AllDueResumed` | include/coring/timer.hpp:55-74 | a timeout that finds everything due, with nothing new registered, empties the queue and parks or ends the loop |
| `Timer.TimerQueue.HasMoreTimeouts` | include/coring/timer.hpp:38-41 | whether anything is queued |
| `Timer.TimerQueue.GetNextExpiration` | include/coring/timer.hpp:44-54 | the time to the earliest wakeup point, zero if it has passed |
| `Timer.TimerQueue.HandleEvents` | include/coring/timer.hpp:55-74 | resumes what is due and what became due, keeps the rest and all registrations, and counts only the first drain |
| `Timer.TimerQueue.AddEvent` | include/coring/timer.hpp:75-83 | the wakeup point is queued in front of its equals |
| `Timer.TimerLoop.GoOn` | include/coring/io_context.hpp:175-184 | where the coroutine next waits: a kernel timeout, the event, or not at all; a stale set event is used up |
| `Timer.TimerLoop.InitTimeoutCallback` | include/coring/io_context.hpp:175-184 | starting the coroutine is the state machine's start |
| `Timer.TimerLoop.RegisterTimeout` | include/coring/io_context.hpp:251-256 | the state machine's registration, waking a parked loop; only new nodes join the queue |
| `Timer.TimerLoop.TimeoutFires` | include/coring/io_context.hpp:175-184 | the state machine's firing, with any registrations by the resumed coroutines, and the handles resumed |
| `TimerRuns.Run` | include/coring/io_context.hpp:175-184 | every run of start, registrations, timeouts and stop on the real loop and skip list is a run of the state machine, and the handles resumed in order are those of its resumed timers |
| `TimerRuns.Perform` | include/coring/io_context.hpp:251-256 | one such act on the loop is the state machine's step, or changes nothing when its time has not come |

## Left out

- Sockets, acceptors, endpoints, files, signals, eventfd and the `io_uring_prep_*` wrappers: system calls and plumbing.
- Weak memory: fences and `volatile` are read as sequentially consistent steps.
- AsyncLogger.NothingLost: rings are queues without a capacity here (`RingProtocol.StepIsQueueStep` shows a ring to be such a queue, and `RunIsFifo` bounds its length), formatting an entry is one unit of text, and growth of the ring list is one step.
- AsyncLogger.StopFlushes: assumes one logger that was started with `run()`; the timed wait may end at any moment.
- RingProtocol.RunIsFifo: slot padding, the clamp of huge capacities and `spsc_ring::full` (whose result is inverted) are not modelled; the spin of `emplace` is any number of looks at the other index.
- SkipList.SkipListMap.Contains: answers true for `maxKey` itself, as the source does.
- SkipList.SkipListMap.DoLessEqThenPop: the callback is a plan of insertions per visit; callbacks that erase or drain are not modelled.
- SkipList.SkipListMap.PopLessEq: freed memory is not modelled; a detached node is simply no longer in the list.
- The skip list's `find`, `print`, destructor and self-test, and its random generator (heights are parameters).
- Pow10.AssignPow10: only exponents below 2^30, since the source's loop does not end on others.
- Dragon.FormatDragon: the shortest-digits mode and the boundaries `lower` and `upper` used only by it are not modelled; the exponent is limited as for `AssignPow10`.
- BigInt.BigInt.Multiply32: the final carry is pushed by the loop that serves all three multiplications; with a one-word carry that is a single push.
- BigInt.BigInt.AssignWord: buffer capacity (thirty-two words before the heap is used) is not modelled.
- Dragonbox, Grisu, power-of-ten caches, float layout, locale grouping and digits in other radixes.
- FormatParse.ParseReplacementField: what a handler does with format specs is its answer, a place between the specs' start and the end; nested width and precision fields are inside that answer.
- FormatStrings.StringReadsBack: specs count as a piece's where the handler, asked there, reads them to their end; where it stops elsewhere, the string is one with a fault (`FormatParser.FaultIsReported`).
- FormatParse.PathsAgree: `on_error` throws, as the library's run-time handlers do; with one that returned, the two paths would go on differently.
- UTF-8 handling in fmt.
- HttpContext.ContextObject.ParseRequest: not entered in `ExpectBody` or `GotAll`, where the source's loop has no exit.
- HttpContext.Buffer.HasRead: `make_room`, growth and capacity of the buffer are not modelled; bytes arrive behind the write index.
- HttpMessages.Response.AppendToBuffer: the status code is given as its text, and the content-type and content-length setters are not modelled.
- CompletionQueue.Context.HandleCompletions: submission entries, overflow handling and a re-entrant call of `handle_completions` itself are not modelled; a completion that finds the ring full is held back by the kernel.
- BigIntDivision.DivmodAssign: dividends more than one word longer are not taken, since the source's loop does not end on them; what an `int` quotient does beyond 2^31 - 1 (overflow, undefined in the source) is not modelled; the model counts on, and digit generation never gets past 9.
- Counting.WaitsForAll: the counter's machine width is not modelled (fewer than 2^64 tasks); exceptions in tasks are not modelled.
- AutoResetEvent.NoLostWakeup: lifetime of the awaiter object and a second consumer are not modelled.
- TimerSpec.TimersRunOnce: punctuality; a timer registered while a later kernel timeout is armed may fire late, and registrations are on the loop's own thread.
- Timer.TimerQueue.GetNextExpiration: conversion to a kernel timespec is not modelled.
- Task and promise storage, coroutine frames, allocators, type traits, the other examples, benchmarks.
