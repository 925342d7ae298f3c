# CRC-32 collision finder: a verified model of its search core

The program searches for strings whose CRC-32 checksum equals a target
value. It enumerates every string over a fixed byte alphabet, one length at
a time. A pool of workers runs the search. Each worker takes one length, walks
every candidate of that length by backtracking in a single line buffer,
checksums each candidate, and reports a copy of every candidate whose
checksum is the target. It then signals that it has finished. A single
counter hands out the lengths 0, 1, 2, … to the workers. The first `multi`
workers start at once, and every completion starts one more at the next
length. A collector keeps the matches in arrival order and prints each one as
`0x%08x<TAB>bytes<TAB>elapsed`.

This project models that core in Dafny:

- `enumeration.dfy` (module `Enumeration`) is the reference enumeration.
  It lists every word of alphabet positions of a given length, in
  lexicographic order, and proves that the list has k^n words, that no word is
  missing, and that it is strictly increasing (so no word appears twice).
- `search.dfy` (module `Search`) holds the backtracking search `combo` as the
  method `Combo`. `Combo` works on a shared `Line` object that it appends to
  and truncates. It is proved to restore the line. It is also proved to
  checksum exactly the reference candidates, in their order, and to emit
  exactly the matches among them, in that order. `Worker` runs `Combo` from an
  empty line and then signals completion once. The checksum (`crc32.Checksum`
  with the chosen table) is a function parameter.
- `config.dfy` (module `Config`) holds the table selector with its IEEE
  fallback, the worker-count clamp, the default alphabet and the
  configuration built from them.
- `scheduler.dfy` (module `Scheduler`) holds the length counter as a class.
  `Start` runs the initial loop and `OnCompletion` handles one completion. It
  also holds a sequential run of the two loops, proved to hand out the lengths
  0, 1, 2, … in order.
- `report.dfy` (module `Report`) holds the collector and the printed line
  format. The format has a parser beside it and round-trip proofs.

`types.dfy` (module `Types`) declares the two machine types the search works
with: checksums are `uint32`, the integers 0 to 2^32-1, and bytes are `byte`,
the integers 0 to 255.

One might expect a call for length 0 to check exactly the empty string.
The code does something else. Its test is
`length <= 1` (crc32c-collision-finder.go:66), so a call for length 0 appends
one symbol and checksums the one-symbol strings, exactly like a call for
length 1. The empty string is never checksummed. The model follows the code.
`Search.LengthZeroAsOne` and `Search.LengthsZeroAndOneReportAlike` state the
consequence: the workers at lengths 0 and 1 do the same work, and every
one-symbol collision is reported twice.

## Model

| member | source | states |
|---|---|---|
| `Enumeration.TuplesCount` | crc32c-collision-finder.go:63-80 | there are exactly k^n words of length n over k symbols |
| `Enumeration.TuplesComplete` | crc32c-collision-finder.go:63-80 | every word of length n over positions 0..k-1 is in the enumeration |
| `Enumeration.TuplesSorted` | crc32c-collision-finder.go:64-79 | the enumeration is strictly increasing in lexicographic order, first symbol most significant |
| `Enumeration.TuplesDistinct` | crc32c-collision-finder.go:63-80 | no word of positions is enumerated twice |
| `Enumeration.Tuples` | crc32c-collision-finder.go:63-80 | every enumerated word has length n and uses only positions below k |
| `Search.Combo` | crc32c-collision-finder.go:63-80 | the line is back to its entry contents on return; the candidates checksummed are exactly `Candidates(alphabet, length, entry line)` in order; the matches emitted are exactly `Hits` of them, in order |
| `Search.Worker` | crc32c-collision-finder.go:82-85 | a worker emits the matches of its length from an empty line, in enumeration order, and then exactly one completion signal as its last event |
| `Search.CandidatesCount` | crc32c-collision-finder.go:63-80 | a call checksums (alphabet size)^Depth(length) candidates, and none for an empty alphabet |
| `Search.CandidateShape` | crc32c-collision-finder.go:65-77 | each candidate is the entry line followed by exactly Depth(length) alphabet symbols, so the empty string is never checksummed from an empty line |
| `Search.CandidatesComplete` | crc32c-collision-finder.go:63-80 | every string of Depth(length) alphabet symbols is checksummed after the entry line |
| `Search.CandidatesInOrder` | crc32c-collision-finder.go:64-79 | with no repeated symbol, candidates come in strictly increasing lexicographic order of alphabet positions, and no candidate is checksummed twice |
| `Search.LengthZeroAsOne` | crc32c-collision-finder.go:66 | a call with length 0 checksums the one-symbol strings in alphabet order, the same as length 1 |
| `Search.LengthsZeroAndOneReportAlike` | crc32c-collision-finder.go:157-162 | the workers started at lengths 0 and 1 report the same matches, all of length 1 |
| `Search.HitsMembership` | crc32c-collision-finder.go:67-73 | a match is emitted exactly for candidates whose checksum equals the target, and carries the target and the candidate's bytes |
| `Search.HitsAppend` | crc32c-collision-finder.go:67-74 | matching does not stop the enumeration: the matches of a run over two stretches of candidates are those of the first stretch followed by those of the second |
| `Search.WorkerReportsExactly` | crc32c-collision-finder.go:82-85 | a worker reports a match if and only if its bytes are Depth(length) alphabet symbols whose checksum is the target |
| `Search.SingleSymbol` | crc32c-collision-finder.go:63-80 | with a one-symbol alphabet, a call checksums only the line followed by Depth(length) copies of the symbol |
| `Search.TwoSymbolScenario` | crc32c-collision-finder.go:63-80 | over the alphabet "ab" with the checksum of "b" as target, the workers at lengths 0 and 1 each report just "b", provided "a" has a different checksum |
| `Config.SelectTable` | crc32c-collision-finder.go:100-109 | selector 2 gives Castagnoli, 3 gives Koopman, and every other integer (1 included) gives IEEE, without error |
| `Config.ClampWorkers` | crc32c-collision-finder.go:118-124 | a count of 0 or less becomes NumCPU; a count above 10·NumCPU becomes 10·NumCPU; other counts are kept; with NumCPU ≥ 1 the result is in [1, 10·NumCPU] |
| `Config.ClampIdempotent` | crc32c-collision-finder.go:118-124 | clamping an already clamped count changes nothing |
| `Config.DefaultAlphabetIsPrintableAscii` | crc32c-collision-finder.go:13-20 | the default alphabet is the 94 bytes 0x21 to 0x7e in increasing order, so it has no repeated symbol and no whitespace |
| `Config.Configure` | crc32c-collision-finder.go:100-134 | the run uses the selected table and the clamped count; the alphabet is never empty: an empty alphabet becomes the default alphabet, and any other is kept as given |
| `Scheduler.LengthCounter.Start` | crc32c-collision-finder.go:157-163 | the initial loop starts max(`multi`, 0) workers at the consecutive lengths from the counter on, in order, and advances the counter by as many; the lengths handed out stay exactly 0, 1, …, counter-1 |
| `Scheduler.LengthCounter.OnCompletion` | crc32c-collision-finder.go:165-171 | a completion starts one worker at the current counter and then increments it |
| `Scheduler.Schedule` | crc32c-collision-finder.go:157-171 | after `multi` initial starts and `completions` completions, the lengths handed out are exactly 0, 1, …, in order, one per start |
| `Scheduler.ScheduleIsContiguous` | crc32c-collision-finder.go:157-171 | the lengths handed out are strictly increasing (never shared) and are exactly the range from 0 (never skipped) |
| `Report.Collector.Collect` | crc32c-collision-finder.go:173-177 | each arriving match is appended to the results in arrival order and printed as `FormatLine` |
| `Report.Hex8RoundTrip` | crc32c-collision-finder.go:176 | the `0x%08x` rendering reads back as the checksum, and only the rendering of a checksum reads back as it |
| `Report.FormatLineRoundTrip` | crc32c-collision-finder.go:176 | a printed line reads back as its match and elapsed text when the bytes hold no tab; with no newline in them, its only newline is the last byte |

## Left out

- Reading the target, the table selector and the worker count from standard input (`fmt.Scanf` and the newline flushing) is interactive I/O. Only the corrections applied to the values read are modelled (`Config.Configure`).
- The alphabet prompt is commented out in the source, so the program always runs with the default alphabet. `Config.Configure` still models the empty-alphabet fallback that the source applies.
- Goroutines, channels and the interrupt goroutine are left out. The worker's two channels become its returned event sequence. The collector receives matches one at a time in whatever order they arrive. The interleaving of several workers is not modelled, and neither is the limit on how many workers run at once.
- `Scheduler.Schedule`: it covers a run up to a given number of completions. The source's replacement loop never ends.
- The interrupt handler closes the channels while workers may still send, which can panic. This is a concurrency fault and is not modelled.
- The interrupt handler's file creation, its write loop and the process exit are file and process I/O. The line it writes for each match is `Report.FormatLine`.
- The CRC-32 tables and `crc32.Checksum` belong to Go's library. The checksum is a function parameter of `Combo` and `Worker`, standing for the checksum with the selected table.
- The elapsed time (`time.Since`) and its `%v` rendering depend on the wall clock. `Search.Match` carries no time, and `Report.FormatLine` takes the rendered time as bytes.
- `runtime.NumCPU()` is a parameter of `Config.ClampWorkers`.
- Go's `int` overflow of the length counter and of `NumCPU*10` is not modelled. The model's integers are unbounded.
- `Search.Combo`: the line is a `seq` field of one shared object. The source's slice shares a backing array that `append` may reallocate. The copy made for a match is a value in the model, so aliasing of the buffer cannot arise in the model at all.
