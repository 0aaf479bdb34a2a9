# fpcap-benchmark: result parsing, chart ordering and the packet-counting loop

fpcap-benchmark measures how fast three capture-file libraries (fpcap with
its mmap and fread backends, PcapPlusPlus and libpcap) read the same trace
of 4631 packets stored as pcap, pcapng and zstd-compressed pcapng. This
project models and proves the parts of the repository that have logic on
their own:

- **Reading Google Benchmark names** (`BenchmarkNames`). A name such as
  `fpcap-fread (pcapng)` is split at its first `" ("`. It is accepted only
  when the tail ends in `)`. The library is renamed through
  `LIBRARY_DISPLAY_NAMES`, and the two zstd spellings are merged through
  `FORMAT_ALIASES`.
- **`parse_benchmarks`** (`ParseBenchmarks`). It folds the benchmark records
  into a format → library → time table, where a later write wins. A Python
  dict is an insertion-ordered association sequence (`PyDict`). The method
  `ParseBenchmarks` is the loop as the script runs it. It is proved equal to
  the fold `Group`, and the properties are proved about `Group`.
- **The chart ordering in `plot_results`** (`ChartOrder`). It covers the
  `all_libraries` collection loop, the order of the format groups, and the
  per-group `libs` list.
- **`bytesSum`** (`ByteSum`). It sums a byte buffer into a `uint64_t` through
  an `unsigned int` counter. Both wrap-arounds are written out.
- **The counting loop** of the `bmFpcap*` benchmarks (`PacketLoop`). It pulls
  packets from a reader until the reader is exhausted, checksums and counts
  the packets produced, and aborts unless the count is 4631. The reader is a
  class that replays a given sequence of `nextPacket` outcomes.
- **Sequence facts** shared by the modules (`Seqs`). These are first index,
  first-appearance order, duplicate removal and permutation.

The time values are opaque: a grouped value is the reported `real_time`
together with its unit. The KeyError of an unknown `time_unit` is the
`Err(UnknownTimeUnit(...))` result. Because the lookup at line 165 comes
before the name check at line 169, an unknown unit aborts parsing even for a
name that would have been skipped.

## Model

| member | source | states |
|---|---|---|
| BenchmarkNames.IndexOf | run_benchmark.py:168 | the cut point of `split(" (", 1)` is the leftmost occurrence of the separator; None exactly when there is none |
| BenchmarkNames.ParseName | run_benchmark.py:168-175 | a name is accepted iff it contains `" ("` and ends with `)`; an accepted name is library + `" ("` + format + `)` with no `" ("` inside library |
| BenchmarkNames.FirstSeparatorAfter | run_benchmark.py:168 | when the library part holds no `" ("`, the first separator of library + `" ("` + rest is right after the library |
| BenchmarkNames.ParseNameOfFormatted | run_benchmark.py:168-175 | round trip: parsing library + `" ("` + format + `)` gives back (library, format) for every library without `" ("` and every format |
| BenchmarkNames.SplitOnce | run_benchmark.py:168-175 | the split is done once, so `a (b (c))` gives format `b (c)`; both parts may be empty (`" ()"`) |
| BenchmarkNames.Rejected | run_benchmark.py:169-172 | names without `" ("` or with a tail not ending in `)` are skipped |
| BenchmarkNames.DisplayName | run_benchmark.py:178 | through the table at lines 21-24, a library changes iff it is `fpcap` or `fpcap-fread`; the output is never a key, so renaming is idempotent |
| BenchmarkNames.FormatAlias | run_benchmark.py:181 | through the table at lines 27-30, the result is `pcapng.zst(d)` iff the input is `pcapng.zst`, `pcapng.zstd` or `pcapng.zst(d)`; any other format is unchanged; aliasing is idempotent |
| ParseBenchmarks.ParseTimeUnit | run_benchmark.py:165 | the lookup in `TIME_UNIT_TO_MS` (lines 34-39) succeeds iff the unit is one of ns, us, ms, s |
| ParseBenchmarks.ParseBenchmarks | run_benchmark.py:155-185 | the loop returns exactly what the fold `Group` returns: the table, or the error of the first unknown unit |
| ParseBenchmarks.Slot | run_benchmark.py:168-181 | no contract of its own: where a name lands is stated by the `SlotOfFormatted`, `RegisteredSlots` and `ZstdFpcapSlot` rows, and which names are skipped by the `ParseName` row |
| ParseBenchmarks.Assign | run_benchmark.py:183 | no contract of its own: the `AssignFormats`, `AssignLibraries`, `AssignOthers` and `AssignWellFormed` rows state `grouped[fmt][library] = value` |
| ParseBenchmarks.Step | run_benchmark.py:159-183 | no contract of its own: one loop pass; `GroupOkIffUnitsKnown`, `GroupFailsAtFirstUnknownUnit` and `SkippedNameContributesNothing` state it through `Group` |
| ParseBenchmarks.Group | run_benchmark.py:155-185 | no contract of its own: the fold that `ParseBenchmarks` is proved equal to; the `GroupFormats`, `GroupLibraries`, `GroupWellFormed`, `LastWriteWins` and `GroupEntriesBound` rows state what it builds |
| ParseBenchmarks.ErrorPersists | run_benchmark.py:165 | once a prefix raises, the whole input raises the same error |
| ParseBenchmarks.GroupSucceedsOnKnownUnits | run_benchmark.py:159-165 | a table is produced iff every benchmark's time unit is known, whatever the names |
| ParseBenchmarks.GroupFailsAtFirstUnknownUnit | run_benchmark.py:159-169 | the error names the first unknown unit, because the lookup comes before the name check |
| ParseBenchmarks.SlotOfFormatted | run_benchmark.py:168-181 | a name built from a library without a space lands under its aliased format and display name |
| ParseBenchmarks.RegisteredSlots | src/packet_reading.cpp:270-279 | each of the ten registered benchmarks is accepted and lands under its aliased format and display name |
| ParseBenchmarks.ZstdFpcapSlot | src/packet_reading.cpp:274 | `fpcap (pcapng.zst)` lands in group `pcapng.zst(d)` as `fpcap (mmap)` |
| ParseBenchmarks.GroupFormats | run_benchmark.py:157-183 | the table's formats are the accepted formats, without repeats, in order of first appearance |
| ParseBenchmarks.GroupLibraries | run_benchmark.py:157-183 | under each format, the libraries are those of the accepted benchmarks with that format, without repeats, in order of first appearance |
| ParseBenchmarks.GroupWellFormed | run_benchmark.py:157-183 | no level of the table holds a key twice |
| ParseBenchmarks.LastWriteWins | run_benchmark.py:183 | the value under (format, library) is the time and unit of the last accepted benchmark that maps to that pair |
| ParseBenchmarks.GroupEntriesBound | run_benchmark.py:159-183 | the number of (format, library) entries is at most the number of accepted benchmarks, which is at most the number of benchmarks |
| ParseBenchmarks.SkippedNameContributesNothing | run_benchmark.py:169-172 | inserting a skipped name with a known unit anywhere in the input leaves the result unchanged |
| ParseBenchmarks.AcceptedFormatsEmpty | run_benchmark.py:169-183 | no format is accepted iff every name is skipped |
| ParseBenchmarks.NothingParsed | run_benchmark.py:272-275 | the "no benchmark results parsed" exit happens iff every benchmark name was skipped |
| ParseBenchmarks.AssignFormats | run_benchmark.py:183 | `grouped[fmt][library] = v` appends `fmt` when it is new and keeps the format order otherwise |
| ParseBenchmarks.AssignLibraries | run_benchmark.py:183 | inside `grouped[fmt]` the library is appended when new, now maps to `v`, and every other library keeps its value |
| ParseBenchmarks.AssignOthers | run_benchmark.py:183 | the other formats keep their dicts |
| ParseBenchmarks.AssignWellFormed | run_benchmark.py:183 | the assignment introduces no repeated key |
| PyDict.GetOr | run_benchmark.py:183 | `grouped[fmt]` on the defaultdict: for a present format, the dict stored with it, the only one when no key repeats; for a new format, an empty dict |
| PyDict.StoredValue | run_benchmark.py:183 | in a dict without repeated keys, every pair stored with a key holds the value of `d[k]` |
| PyDict.Set | run_benchmark.py:183 | no contract of its own: the `SetKeys`, `SetGet`, `SetGetOther` and `SetWellFormed` rows state dict assignment |
| PyDict.SetKeys | run_benchmark.py:183 | dict assignment keeps the key order and appends a new key at the end |
| PyDict.SetGet | run_benchmark.py:183 | after assignment the key maps to the assigned value |
| PyDict.SetGetOther | run_benchmark.py:183 | assignment leaves every other key's value alone |
| PyDict.SetWellFormed | run_benchmark.py:183 | assignment never introduces a repeated key |
| Seqs.Dedup | run_benchmark.py:191-196 | appending each element not yet collected gives every element once, in order of first appearance |
| Seqs.SameElementsPermutation | run_benchmark.py:199-200 | two duplicate-free sequences with the same elements are permutations of each other |
| ChartOrder.CollectLibraries | run_benchmark.py:191-196 | the nested loop builds the libraries of the visited formats, without repeats, in order of first appearance |
| ChartOrder.VisitedLibrariesMembers | run_benchmark.py:191-196 | a library is met iff some visited format that the table holds contains it |
| ChartOrder.AllLibrariesAsWrittenMembers | run_benchmark.py:191-196 | `all_libraries` has no duplicates, follows first appearance, and holds exactly the libraries of formats in FORMAT_ORDER; libraries found only under other formats are absent |
| ChartOrder.AllLibrariesAsWritten | run_benchmark.py:191-196 | no contract of its own: `all_libraries` as the script builds it; the `AllLibrariesAsWrittenMembers` and `CollectLibraries` rows state it |
| ChartOrder.OrderedFormats | run_benchmark.py:199-200 | no contract of its own: `formats`; the `FormatsArePermutation` and `FormatsOrder` rows state it |
| ChartOrder.Select | run_benchmark.py:199-200 | a list comprehension keeps exactly the elements passing the membership test, in the order of the source list when that list has no repeats, as `FORMAT_ORDER`, the keys of `grouped` and `all_libraries` at lines 199, 200 and 212 have none |
| ChartOrder.FormatsArePermutation | run_benchmark.py:199-200 | `formats` is a permutation of the table's formats, each once |
| ChartOrder.FormatsOrder | run_benchmark.py:199-200 | known formats come first and in FORMAT_ORDER order; unknown formats follow in their insertion order |
| ChartOrder.FormatLibraries | run_benchmark.py:211-212 | `libs` holds exactly the libraries of `all_libraries` that the group holds, as a subsequence of `all_libraries` |
| ChartOrder.UnknownFormatGetsNoBars | run_benchmark.py:191-212 | a table whose only result is under `pcapng.lz4` has that group drawn with an empty `libs` |
| ChartOrder.EveryResultGetsABar | run_benchmark.py:190-212 | with `all_libraries` collected over every drawn format, each group's `libs` is a permutation of its libraries |
| ChartOrder.AllLibraries | run_benchmark.py:190-196 | no contract of its own: the corrected `all_libraries`, walking `formats` instead of FORMAT_ORDER; the `EveryResultGetsABar` and `ParsedResultsAllDrawn` rows state it |
| ChartOrder.RegisteredFormatsKnown | src/packet_reading.cpp:270-279 | every registered benchmark's aliased format is in FORMAT_ORDER |
| ChartOrder.ParsedResultsAllDrawn | run_benchmark.py:155-212 | from records to bars: each drawn group gets exactly one bar per library that an accepted benchmark of that format names |
| ByteSum.BytesSum | src/packet_reading.cpp:16-23 | the result is the sum of the first `length` bytes modulo 2^64, and the exact sum below 2^56 bytes; the buffer is not modified |
| ByteSum.SumBound | src/packet_reading.cpp:17-20 | the sum is at most 255 × length |
| ByteSum.NoWrapBelow | src/packet_reading.cpp:17-19 | below 2^56 bytes the `uint64_t` sum never wraps around |
| ByteSum.SumAppend | src/packet_reading.cpp:16-23 | the sum over a concatenation is the sum of the two sums |
| ByteSum.AddWrap64 | src/packet_reading.cpp:19 | `sum += data[i]` on a `uint64_t` adds modulo 2^64 |
| ByteSum.Increment32 | src/packet_reading.cpp:18 | `++i` on the `unsigned int` counter adds one modulo 2^32 |
| ByteSum.BytesSumAsWritten | src/packet_reading.cpp:16-23 | with the 32-bit counter and a length below 2^32, the result is the same as `BytesSum` |
| ByteSum.CounterCycles | src/packet_reading.cpp:18 | after k increments the 32-bit counter holds k mod 2^32 |
| ByteSum.AsWrittenNeverStops | src/packet_reading.cpp:18 | for a length of 2^32 or more, the counter stays below the length after any number of steps, so the loop never ends |
| PacketLoop.Packet.constructor | src/packet_reading.cpp:31 | a fresh packet is empty |
| PacketLoop.PacketReader.constructor | src/packet_reading.cpp:27 | a fresh reader has delivered no outcome |
| PacketLoop.PacketReader.IsExhausted | src/packet_reading.cpp:32 | no contract of its own: `isExhausted()` holds once every outcome is delivered; `RunIteration` loops on it |
| PacketLoop.PacketReader.NextPacket | src/packet_reading.cpp:33 | a call consumes one outcome; when a packet was produced, the packet holds its bytes and its capture length; otherwise the packet is unchanged; an exhausted reader changes nothing |
| PacketLoop.RunIteration | src/packet_reading.cpp:29-43 | `packetCount` is the number of calls that produced a packet, modulo 2^64; the iteration passes iff that count is 4631; on passing, `bytesTotal` is the sum of the bytes of exactly those packets, modulo 2^64 |
| PacketLoop.PacketCountBound | src/packet_reading.cpp:33-36 | at most one packet per call |
| PacketLoop.PassesIffExpectedCount | src/packet_reading.cpp:39-43 | with fewer than 2^64 calls, the count check passes iff exactly 4631 calls produced a packet |
| PacketLoop.TotalsAppend | src/packet_reading.cpp:29-38 | the count and the byte total add up over consecutive runs of calls |
| PacketLoop.FailedCallContributesNothing | src/packet_reading.cpp:33-37 | a call that produced no packet changes neither total, wherever it happens |
| PacketLoop.BytesTotalBound | src/packet_reading.cpp:34-35 | the byte total is at most 255 × the longest capture × the packet count |

## Left out

- The capture reader, `fpcap::PacketReader`, comes from the external header `fpcap/fpcap.hpp`, which is not part of this model. `PacketReader` replays a given sequence of outcomes instead. It is exhausted once all outcomes are delivered, so the model assumes the real reader eventually reports exhaustion; the loop at src/packet_reading.cpp:32 would run forever on a reader that never does, and `RunIteration` always ends. The real reader's final call, the one that observes end of file, is an outcome that produced no packet.
- PacketLoop.RunIteration: models the body shared by the five fpcap benchmarks (src/packet_reading.cpp:25-143). The PcapPlusPlus and libpcap bodies (src/packet_reading.cpp:145-268) call foreign libraries and are not modelled.
- PacketLoop.Capture: a capture is shorter than 2^32 bytes, because the reader reports capture lengths as 32-bit values.
- The Google Benchmark machinery is left out because it is timing infrastructure, not logic. This covers the `for (auto _ : state)` loop, `DoNotOptimize`, `ClobberMemory`, the `BENCHMARK` registrations and the text printed before `abort`. The abort is the `Aborted` verdict.
- The conversion `real_time * TIME_UNIT_TO_MS[time_unit]` is floating-point. Values stay opaque (`Duration`), and only the unit lookup is modelled.
- The warning printed for a skipped name (run_benchmark.py:170-171) is left out because it is I/O. Only the skip is modelled.
- The script's system probing and I/O are left out: OS, CPU and RAM probing, the subprocess run, JSON reading and writing, directories and argparse (run_benchmark.py:42-152, 243-285). The exit on an empty table is stated by `NothingParsed`.
- The matplotlib drawing is left out: bar positions, colours from `LIBRARY_COLORS` and labels (run_benchmark.py:202-240). Only the lists it draws from are modelled.
- ParseBenchmarks.RegisteredSlots: the ten registered names are written as (library, format) pairs, and the name is library + `" ("` + format + `)`. Checking the ten literal strings in one proof is too costly for the verifier. `ZstdFpcapSlot` checks one literal name.
- ChartOrder.FormatsOrder and ChartOrder.FormatsArePermutation require the table to hold no key twice. This always holds for a Python dict, and `GroupWellFormed` proves it for every parsed table.

## Findings

| source | as written | input that shows it | evidently intended | confidence | as-written member | corrected member |
|---|---|---|---|---|---|---|
| run_benchmark.py:191-196 | `all_libraries` walks only the formats in FORMAT_ORDER, but `formats` (lines 199-200) also draws the other formats. A library that appears only under other formats is never put in `all_libraries`, so that library gets no bar in its group. A group whose libraries all occur only under unknown formats (`LZ4_TABLE`) is drawn empty. | a table holding one result, `fpcap (mmap)` under `pcapng.lz4` (`ChartOrder.LZ4_TABLE`) | collect every library in the results, as the comment at line 190 says, so that each drawn group shows every result | not executed; none of this repository's own benchmarks produce an unknown format (`RegisteredFormatsKnown`) | ChartOrder.UnknownFormatGetsNoBars | ChartOrder.EveryResultGetsABar |
| src/packet_reading.cpp:18 | `auto i = 0u` gives `bytesSum` an `unsigned int` counter, while `length` is a `size_t`. For a length of 2^32 or more, the counter wraps to 0 before reaching the length, so the loop never ends. | `length` = 2^32 | a counter of type `size_t` | not executed; low: every caller passes a 32-bit capture length | ByteSum.AsWrittenNeverStops | ByteSum.BytesSum |

Every call site of the bytes sum uses the corrected `BytesSum`, including `PacketLoop.RunIteration`. Because capture lengths are below 2^32, `BytesSumAsWritten` proves the same result for them. The chart-level statements of the corrected behaviour use `ChartOrder.AllLibraries`, for example `ParsedResultsAllDrawn`.
