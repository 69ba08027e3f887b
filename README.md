# leansdr simple blocks, modelled in Dafny

This project models the simple streaming blocks of leansdr
(`src/leansdr/generic.h`). A leansdr flowgraph is a set of blocks joined by
bounded FIFO pipes. The scheduler calls each block's `run()` in turn, and one
call moves as much data as the pipes allow. Every block is a Dafny `class`
that holds the block's persistent fields. Its `Run` method is one invocation
of `run()` and is proved against a specification of what it consumes, what it
produces and how its fields change, on every way the invocation can end.

Modules:

- `Pipes`: a minimal bounded FIFO, `Pipe<T>`, with a `seq` buffer and a
  capacity. `Readable`, `Writable`, `Read(n)` and `Written(xs)` stand in for
  the pipe reader and pipe writer. The module also holds the `Outcome` of an
  invocation: `Done`, `Fatal(reason)` for leansdr's `fatal()`/`fail()`, or
  `OutOfFuel`.
- `Bytes`: a `byte` type, and `Flatten`/`Split` between fixed-width elements
  and their bytes. This is how `memcpy` and raw descriptor I/O are modelled.
- `Arith`: small facts about multiplication and Euclidean division.
- `Descriptors`: a POSIX input descriptor (`read`, `lseek`) and output
  descriptor (`write`). What the system does on each `read` and `write` is
  fixed in advance by a list of grants, one per call: a negative grant makes
  the call fail, otherwise it bounds how many bytes move. `lseek` uses no
  grant: whether it succeeds is a fixed property of the input descriptor
  (`seekable`).
- `Transforms`: decimator, itemcounter, rate_estimator and serializer.
- `Sources`: file_reader and buffer_reader.
- `Sinks`: file_writer and buffer_writer.
- `Printers`: file_printer.

## Model

| member | source | states |
|---|---|---|
| Transforms.DecimatedCount | src/leansdr/generic.h:186 | The count never exceeds the output room, its groups fit in the input, and it is the largest such count: either the output is full or no further complete group is readable. |
| Transforms.EveryNth | src/leansdr/generic.h:187-189 | The first element of each complete group of d: never more elements than the input, and the input's first element first whenever one group is complete. |
| Transforms.GroupHeadsOf | src/leansdr/generic.h:187-189 | The copy loop: exactly count elements, those EveryNth takes from the first count*d inputs. |
| Transforms.EveryNthIndex | src/leansdr/generic.h:187-189 | Forwarding one element per group of d yields \|s\|/d elements, the j-th of which is s[j*d]. |
| Transforms.EveryNthOfGroups | src/leansdr/generic.h:187-189 | Any sequence of count elements whose j-th is s[j*d] is what forwarding the first count*d inputs produces. |
| Transforms.Decimator.constructor | src/leansdr/generic.h:180-184 | Binds the factor d and the two pipes. |
| Transforms.Decimator.Run | src/leansdr/generic.h:185-192 | Exactly count*d inputs are consumed, and the rest stay queued in order. The output gains the heads of those count groups, where count is DecimatedCount of the readable and writable counts. |
| Transforms.ItemCounter.constructor | src/leansdr/generic.h:158-161 | Binds the input and output pipes. |
| Transforms.ItemCounter.Run | src/leansdr/generic.h:162-168 | With room for one value and a non-empty input, exactly one value equal to the readable count is written and all input is consumed. Otherwise neither pipe changes. |
| Transforms.Sum | src/leansdr/generic.h:218-221 | The total the accumulation loop adds, front to back; samples that are never negative give a total that is not negative. |
| Transforms.SumConcat | src/leansdr/generic.h:218-221 | Accumulating two batches in turn adds both totals. |
| Transforms.RateEstimator.constructor | src/leansdr/generic.h:205-212 | The sample size is 10000 and both accumulators start at 0. |
| Transforms.RateEstimator.Run | src/leansdr/generic.h:214-228 | With no room for a rate, nothing changes. Otherwise min(readable num, readable den) samples are consumed from both inputs and their sums are added to the accumulators. If the denominator sum reaches the sample size, one (num, den) rate is emitted and both accumulators reset to 0; otherwise nothing is emitted. |
| Transforms.GroupRatioAsWritten | src/leansdr/generic.h:242-247 | The group sizes exactly as the constructor computes them. On success both are at least 1 and a group of inputs holds as many bytes as a group of outputs. |
| Transforms.AsWrittenOnlyEqualWidths | src/leansdr/generic.h:242-247 | As written, construction succeeds if and only if the two widths are equal. |
| Transforms.AsWrittenRejectsTwoAndEight | src/leansdr/generic.h:242-247 | As written, widths 2 and 8 are rejected; the corrected ratio is 4 inputs for 1 output. |
| Transforms.GroupRatio | src/leansdr/generic.h:242-247 | Corrected group sizes: on success both are at least 1, and a group of inputs holds as many bytes as a group of outputs. |
| Transforms.GroupRatioSucceedsIff | src/leansdr/generic.h:242-247 | The corrected construction succeeds if and only if one width divides the other. |
| Transforms.GroupRatioSmallest | src/leansdr/generic.h:242-246 | On success, no byte-equal pair of group sizes is smaller in either component. |
| Transforms.FourAndSixRejected | src/leansdr/generic.h:246-247 | Widths 4 and 6 are rejected even though 3*4 == 2*6. |
| Transforms.Serializer.constructor | src/leansdr/generic.h:241-248 | Binds both widths, both pipes and the computed group sizes. |
| Transforms.Serializer.Create | src/leansdr/generic.h:241-248 | Fails exactly when GroupRatio fails, that is when neither width divides the other. Otherwise it returns a fresh, valid serializer bound to the given pipes with the computed group sizes. |
| Transforms.SerializeStep | src/leansdr/generic.h:250-254 | One more group of nin inputs re-chunks into exactly nout whole outputs. Those outputs extend the re-chunking of everything consumed before. |
| Transforms.SerializedSuffix | src/leansdr/generic.h:251-253 | The elements appended after the old output are the re-chunked bytes: one element per width, concatenating back to those bytes. |
| Transforms.Serializer.Run | src/leansdr/generic.h:249-255 | Only whole groups move: groups*nin inputs in and groups*nout outputs out. The bytes appended to the output are exactly the bytes consumed, and the input keeps the rest in order. On exit, fewer than nin inputs are readable or there is room for fewer than nout outputs. |
| Bytes.SplitFlatten | src/leansdr/generic.h:251 | Bytes that make a whole number k of elements split into k elements of the width, which concatenate back to the same bytes. |
| Bytes.FlattenSplit | src/leansdr/generic.h:251 | Splitting the bytes of same-width elements gives back the elements. |
| Sources.FileReader.constructor | src/leansdr/generic.h:20-25 | Looping starts switched off. |
| Sources.TornRemainder | src/leansdr/generic.h:42-43 | The bytes still missing after nr bytes: fewer than one element, bringing nr to an element boundary, and no smaller count does. |
| Sources.TornCompletionFits | src/leansdr/generic.h:41-50 | When the request was a whole number of elements, completing a torn element never reads past it. |
| Sources.SplitAligned | src/leansdr/generic.h:52 | Aligned bytes within the room of `writable` elements commit \|bytes\|/width whole elements, at most `writable`. |
| Sources.Completes | src/leansdr/generic.h:44-50 | Whether the completion reads succeed, each asking for all the bytes still missing; success needs the file to still hold the missing bytes. |
| Sources.CompletesRest | src/leansdr/generic.h:44-50 | The oracle left once the completion reads are over, successful or not: at most one entry fewer per missing byte. |
| Sources.CompletesOffset | src/leansdr/generic.h:44-50 | The offset the completion reads reach, successful or not: at least where they start and at most the missing bytes further on, exactly that far when they succeed. |
| Sources.CompletesRestSuffix | src/leansdr/generic.h:44-50 | The completion reads use entries from the front of the oracle only, so what is left is a suffix of it. |
| Sources.Reread | src/leansdr/generic.h:33-38 | The rewinds and reads again: a descriptor that cannot seek stops with "lseek", a seekable one stops only when the fuel runs out, and both stops report the oracle reached. Reads again end with a nonzero result from offset 0. |
| Sources.ReadStart | src/leansdr/generic.h:30-38 | The first read and any rewinds: the reads end at the current offset or, after a rewind, at 0, with a result within the request and the file. A zero result ends them only without looping, and only a looping reader is stopped. |
| Sources.ReaderOutcome | src/leansdr/generic.h:26-52 | The outcome of an invocation: Done, Fatal "read", "lseek" or "partial read", or out of fuel. Out of fuel needs a looping reader on a seekable descriptor, and "lseek" a looping reader on one that cannot seek. |
| Sources.ReaderGrants | src/leansdr/generic.h:26-50 | The oracle an invocation leaves: the one its first reads left when they stopped or failed, otherwise the one the completion reads leave; never longer than the one the first reads left. |
| Sources.ReaderOffset | src/leansdr/generic.h:26-50 | The offset an invocation leaves: 0 after a rewind with no fuel left, unchanged after a failed rewind, the start of a failed read, otherwise where the completion reads reach, between the end of the first reads and the next element boundary. |
| Sources.AlignedReadDone | src/leansdr/generic.h:31-52 | A first read that delivers a positive whole number of elements ends the invocation Done. |
| Sources.LseekFatalIff | src/leansdr/generic.h:33-38 | The invocation is fatal with "lseek" if and only if the reader loops, the first read delivers nothing, and the descriptor cannot seek. |
| Sources.CompletesWithinFile | src/leansdr/generic.h:44-50 | When every read delivers all it can, completing a torn element that the file still holds succeeds. |
| Sources.TornTailIsFatal | src/leansdr/generic.h:41-50 | A first read that reaches end of file with a torn element ends Fatal("partial read") whatever the oracle allows, since the completion read finds no more bytes. |
| Sources.FileReader.ReadMissing | src/leansdr/generic.h:44-50 | The completion loop succeeds exactly when Completes says so, and leaves the oracle at CompletesRest and the offset at CompletesOffset. On success the bytes read are exactly the next file bytes. |
| Sources.FileReader.CompleteTorn | src/leansdr/generic.h:41-50 | Succeeds exactly when the completion reads replayed from the oracle (Completes) each deliver something until TornRemainder(nr) bytes have arrived. Either way it leaves the oracle at CompletesRest and the offset at CompletesOffset. An aligned nr reads nothing more. On success the total is nr plus TornRemainder(nr): aligned, within the request, and exactly the next file bytes. |
| Sources.FileReader.ReadAgain | src/leansdr/generic.h:30-39 | Ends exactly as ReadStart replays the oracle. A first read that fails or delivers data, or any zero read without looping, ends the reads with that result at the original offset. Otherwise each rewind reads again from offset 0. A descriptor that cannot seek gives Fatal("lseek") with the offset unchanged, and exhausted fuel gives OutOfFuel at offset 0; both leave the oracle ReadStart reports. A failed read leaves the offset where it started. A zero result comes out only without looping. |
| Sources.FileReader.Commit | src/leansdr/generic.h:32-52 | After the reads end with result nr: a negative nr is Fatal("read") and changes no more state; nr = 0 is Done with nothing committed; a positive nr is Done exactly when the completion succeeds, and Fatal("partial read") otherwise. The oracle and offset left are CompletesRest and CompletesOffset (ReaderGrants and ReaderOffset of that delivery). On Done, nr plus TornRemainder(nr) bytes are committed, at least one whole element for a positive nr. On failure nothing is committed. |
| Sources.FileReader.Fill | src/leansdr/generic.h:30-52 | With room for a positive number of elements, the outcome is ReaderOutcome of the oracle, and the oracle and offset left are ReaderGrants and ReaderOffset of ReadStart, on every end. On Done, the committed bytes are the next ones from the offset the last read started at. |
| Sources.FileReader.Run | src/leansdr/generic.h:26-53 | The outcome is exactly ReaderOutcome of the oracle, the file and the room. With no room nothing happens; a failing read is Fatal("read"); a zero read without looping is Done; a torn read is Done exactly when its completion succeeds. On Done the committed bytes are the next file bytes from the current offset, or from 0 after a rewind: nr plus TornRemainder(nr) bytes, a whole number of elements, at most the room, appended as \|bytes\|/width elements. A looping reader that ends Done always commits something. Nothing is committed on any failure. With room, the oracle and offset left are ReaderGrants and ReaderOffset of ReadStart on every end, Done or not. |
| Sources.TornReadExample | src/leansdr/generic.h:26-53 | Elements of 4 bytes, room for 2, and an oracle starting 6 then 2: the first read returns 6 bytes, a second read completes the torn element, the invocation is Done with both elements committed, and the offset is 8. The oracle left is exactly the entries after those two. |
| Sources.BufferReader.constructor | src/leansdr/generic.h:267-270 | The cursor starts at 0 and nothing has been produced. |
| Sources.BufferReader.Run | src/leansdr/generic.h:271-276 | The cursor advances by min(writable, count - pos), and the output gains exactly data[old pos..pos]. Everything produced so far is data[0..pos), and pos <= count is kept. |
| Sources.BufferReaderInTwoCalls | src/leansdr/generic.h:271-276 | Through a pipe with room for 4 and then 10: the first call moves data[0..4), the second data[4..10), and the third nothing. There are no repeats and no gaps. |
| Sinks.WriteOutcome | src/leansdr/generic.h:70-74 | An invocation ends Done exactly when nothing was to be written or a positive multiple of the width was written; otherwise it is fatal. |
| Sinks.ConsumedBytes | src/leansdr/generic.h:71-75 | A positive whole number of accepted bytes are the bytes of the first nw/width elements, between 1 and all of them. |
| Sinks.FileWriter.constructor | src/leansdr/generic.h:64-67 | Binds the input pipe, the descriptor and the element width. |
| Sinks.FileWriter.Run | src/leansdr/generic.h:68-76 | An empty input writes nothing and uses no oracle entry. Otherwise one write of all readable bytes uses one entry: the descriptor gains the first max(nw, 0) of those bytes, and the outcome follows WriteOutcome of nw. A fatal end consumes nothing. On Done, the nw/width elements consumed, at least one, are exactly those whose bytes the descriptor accepted. |
| Sinks.BufferWriter.constructor | src/leansdr/generic.h:289-292 | The cursor starts at 0 and nothing has been stored. |
| Sinks.BufferWriter.Run | src/leansdr/generic.h:293-298 | The cursor advances by n = min(readable, count - pos), and n inputs are consumed and stored at data[old pos..pos). No other array cell changes, and everything stored so far is data[0..pos). |
| Printers.Feed | src/leansdr/generic.h:97-105 | The printer loop over the readable elements as a function: at most one line per element. FeedSchedule states what it computes. |
| Printers.BoundaryValue | src/leansdr/generic.h:97-99 | Line j comes from fed element (j+1)*d - phase - 1. |
| Printers.FeedSchedule | src/leansdr/generic.h:97-106 | With decimation >= 1 and the phase in range, feeding n elements leaves the phase at (phase+n) mod decimation and emits (phase+n) div decimation lines. Line j is the scaled element at which the count came round the (j+1)-th time. |
| Printers.ThirdAndSixth | src/leansdr/generic.h:97-106 | Decimation 3 over 7 elements from phase 0 prints the 3rd and the 6th element and leaves the phase at 1. |
| Printers.FilePrinter.constructor | src/leansdr/generic.h:87-93 | Scale 1, phase 0, no lines. |
| Printers.FilePrinter.Run | src/leansdr/generic.h:94-108 | Every readable element is consumed. The phase and the new lines are those of feeding the elements in order. A phase in range stays in range. |

## Left out

- The real `pipebuf`, `pipereader`, `pipewriter` and `scheduler` are not part of this model. A pipe is one bounded buffer with a single reader; the pipe writer's minimum write size is not modelled.
- POSIX `read`, `write` and `lseek` are replaced by a grant list fixed in advance. Blocking is not modelled.
- Sources.FileReader.Run: the `goto again` rewind loop can spin forever on an empty looping file, so a fuel parameter bounds it. Each successful rewind uses one unit of fuel before reading again, after the lseek check. Running out gives `OutOfFuel`, which the source has no counterpart for.
- Sources.FileReader.Run: on a fatal end, the bytes already read stay consumed from the descriptor; the model states the oracle and offset left, but the source ends the process there.
- Sinks.FileWriter.Run: on a fatal torn write the descriptor keeps the partial bytes; the model states them, but the source ends the process there.
- `fatal()` and `fail()` end the process in the source. Here they are an outcome and nothing after them runs.
- Debug `fprintf(stderr, ...)` output is not modelled.
- `file_carrayprinter` is not modelled. It is `fdopen`/`fprintf`/`fflush` output whose only logic is consuming all readable input.
- Printers.FilePrinter.Run: `snprintf` formatting, the 256-byte buffer and its write are replaced by appending the scaled value to `lines`. The "obsolete glibc" and "partial write" errors of that output are not modelled.
- Printers.FilePrinter.Run: `scale` and the elements are integers; floating-point values and their rounding are not modelled.
- Transforms.RateEstimator.Run: the float `acc_num / acc_den` is emitted as the exact pair. The accumulators are unbounded, so `int` overflow is not modelled.
- Fixed-width integers (`int size`, `int n`, `int pos`, `unsigned int d`) are unbounded naturals here, so overflow is not modelled.
- Transforms.Decimator.Run: `d` is a public field in the source. Here it is fixed at construction and must be at least 1; d = 0 would divide by zero in the source.
- Transforms.ItemCounter.Run: the output element type is `nat`, the count itself.
- buffer_writer registers under the name "buffer_reader". Block names are not modelled.

## Findings

| source | as written | input that shows it | evidently intended | confidence | as-written member | corrected member |
|---|---|---|---|---|---|---|
| src/leansdr/generic.h:242-243 | `nin = max(1, sizeof(Tin)/sizeof(Tout))`, `nout = max(1, sizeof(Tout)/sizeof(Tin))`, so the check at line 246 passes only for equal widths (Transforms.AsWrittenOnlyEqualWidths) | Tin of 2 bytes, Tout of 8 bytes: nin = 1, nout = 4, and 1*2 != 4*8 fails | the quotients swapped: nin = max(1, sizeof(Tout)/sizeof(Tin)) = 4 and nout = 1, accepted whenever one width divides the other | high; not executed | Transforms.AsWrittenRejectsTwoAndEight | Transforms.GroupRatioSucceedsIff |

Even corrected, the check at generic.h:246 rejects widths 4 and 6, although
3 inputs of 4 bytes hold as many bytes as 2 outputs of 6 bytes. Group sizes
are found only when one width divides the other
(Transforms.GroupRatioSucceedsIff, Transforms.FourAndSixRejected). The model
keeps that behaviour.
