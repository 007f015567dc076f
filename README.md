# ipcounter in Dafny

This project models the core of `ipcounter`, which counts the distinct IPv4
addresses in a large text file, one address per line. Each address becomes
a 32-bit key. A fixed bitmap of 2^32 bits, stored as 2^26 64-bit words, marks
every key seen. At the end the count of distinct addresses is the total
population count of the words. While it scans, the program reports
progress: a report is due once more than 10 MiB of input has passed since
the last one, and one final report comes at the end of the file.

Modules:

- `Words` (`words.dfy`): a 64-bit word (`bv64`) and its bits. A bit
  position is a 6-bit shift amount, `1 << p` is the mask, and `PopCount`
  models `bits.OnesCount64`.
- `BitSets` (`bitset.dfy`): the bitmap. It has two layers.
  - An abstract model on `seq<Word>`: `Members` is the set of keys whose
    bit is one, `Inserted` is the effect of `Set`, and `SumPopCount` sums
    the popcounts.
  - The class `BitSet`: the words live in an `array<bv64>`, and the
    methods `Set` and `Count` are proved against that model.
- `Address` (`address.dfy`): `ipToUint32`, which packs a 4-octet address
  big-endian into a `uint32`, and its inverse `Octets`.
- `Scan` (`scan.dfy`): the scan loop of `processFile` on a given sequence
  of lines.
  - Each line adds `len(line) + 1` to the processed byte count.
  - The key of each line that parses is set in the bitmap.
  - Each call of `printProgress` is recorded as the byte count passed to it
    as `current`.
  - `CountDistinct` is the whole pipeline: `NewBitSet`, the scan, then
    `Count`.
- `Decimal` (`decimal.dfy`): Go's `%d` formatting of an `int`, with a
  reader that inverts it.
- `Durations` (`durations.dfy`): `formatDuration` on whole seconds, with
  its inverse `ParseDuration`, and `repeat`.
- `Wrappers` (`wrappers.dfy`): `Option` and `Result`.

Library calls whose code is not modelled become function parameters about
which nothing is assumed:

- `net.ParseIP` becomes `ParseOracle`.
- `IP.To4` becomes `To4Oracle`.

Notes on how the model follows the code:

- The code parses with `net.ParseIP` and keeps what `To4` accepts. That
  includes IPv4-mapped IPv6 text, not only dotted quads. The oracles keep
  this open.
- The code has no count-only fallback when the file size cannot be read:
  an error from `file.Stat` ends `processFile`. The model takes the total
  size as a parameter.
- Go's `/` and `%` truncate toward zero, and Dafny's are Euclidean.
  `formatDuration` divides only when `secs >= 60`. There both agree, so the
  model uses Dafny's operators.
- The total size is not related to the lines. A last line without a
  terminator still adds `len(line) + 1`, so the processed count can pass the
  file size, and the final report can then be smaller than the report before
  it (`Scan.FinalReportCanDecrease`).

## Model

| member | source | states |
|---|---|---|
| BitSets.BitSet.constructor | main.go:17-23 | `NewBitSet` allocates 2^32/64 = 2^26 words, all zero, so the set of members is empty |
| BitSets.CountOfNew | main.go:17-37 | `Count()` of a freshly made bitmap is 0 |
| BitSets.KeyInRange | main.go:26-28 | for every `uint32` key, `n / 64` is below 2^26 and `n % 64` below 64, so `Set` never indexes out of bounds |
| BitSets.BitSet.Set | main.go:25-29 | the new words are `Inserted(old words, n)`; every other word is unchanged; the members become the old members plus `n` |
| BitSets.InsertedMembers | main.go:25-29 | ORing bit `n % 64` into word `n / 64` adds exactly key `n` to the abstract set and removes none |
| BitSets.InsertedMonotone | main.go:25-29 | insertion keeps the length, changes no other word, keeps every member (bits are never cleared) and makes `n` a member |
| BitSets.InsertPresent | main.go:28 | setting a key that is already a member leaves the words unchanged |
| BitSets.InsertIdempotent | main.go:28 | `Set(n); Set(n)` leaves the same words as one `Set(n)` |
| BitSets.InsertCommutes | main.go:25-29 | two `Set`s give the same words in either order |
| BitSets.InsertedCount | main.go:25-37 | after `Set(n)`, the popcount total grows by one if `n` was absent and is unchanged if it was present |
| BitSets.CountIsCardinality | main.go:31-37 | the sum of the word popcounts equals the number of keys in the abstract set |
| BitSets.SumPopCountBound | main.go:31-37 | the popcount total is at most 64 per word, so at most 2^32 over 2^26 words, and the `uint64` accumulator cannot overflow |
| BitSets.BitSet.Count | main.go:31-37 | the loop's total is the number of keys in the set and at most 2^32; the state is unchanged |
| Words.BitOfSet | main.go:28 | after OR-ing `1 << p` into `w`, bit `q` is one exactly when `q == p` or it was one before |
| Words.PopCount | main.go:34 | `bits.OnesCount64` counts the one bits of a word, at most 64 |
| Address.IpToUint32 | main.go:39-45 | fails with the invalid-IPv4 error exactly when `To4` has no 4-octet form; otherwise it succeeds with the key whose octets are that form |
| Address.OctetsOfBigEndian | main.go:44 | splitting `a·2^24 + b·2^16 + c·2^8 + d` back into octets gives `[a, b, c, d]` |
| Address.BigEndianOfOctets | main.go:44 | packing the four octets of any key gives the key back |
| Address.BigEndianInjective | main.go:44 | distinct 4-octet addresses get distinct keys |
| Scan.LineKey | main.go:70-76 | a line yields a key exactly when it parses and has a 4-octet form; the key's octets are that form |
| Scan.ScanLine | main.go:70-76 | one line adds its key to the bitmap, or nothing when parsing or `ipToUint32` fails |
| Scan.SkippedLine | main.go:70-76 | a line that does not parse, or has no 4-octet form, adds no key to the scan |
| Scan.ParsedKeysChar | main.go:66-82 | a key is in the scanned set exactly when some line yields it |
| Scan.ParsedKeysAppend | main.go:66-82 | scanning `a + b` yields the keys of `a` together with those of `b` |
| Scan.ParsedKeysRepeated | main.go:66-82 | duplicated input lines add no key: the input repeated twice yields the same set |
| Scan.ConsumedBytesGrows | main.go:68 | the processed byte count never decreases and grows by at least one per line |
| Scan.SpacedStep | main.go:78-81 | a report more than 10 MiB past the previous one keeps every pair of reports more than 10 MiB apart, in increasing order |
| Scan.TickStep | main.go:78-81 | when a report is due, recording the current count puts the report at a line end, and no line end is more than 10 MiB past its latest report |
| Scan.QuietStep | main.go:78-81 | when no report is due, the latest report stays within 10 MiB of the new line end |
| Scan.ReportIfDue | main.go:78-81 | reports the byte count exactly when more than 10 MiB passed since the last report, and keeps the progress invariant |
| Scan.ScanStep | main.go:67-81 | one iteration adds the line's key to the bitmap and carries the progress invariant from line `n` to line `n + 1` |
| Scan.ScanLines | main.go:62-82 | after the loop, the bitmap holds its old keys plus every parsed key; `processedBytes` is the sum of `len(line) + 1`; `lastPrinted <= processedBytes <= lastPrinted + 10 MiB` |
| Scan.FinalProgress | main.go:62-82 | at loop end, the invariant gives the byte total of the whole input, and `lastPrinted` is the latest report at or before it |
| Scan.ProcessLines | main.go:62-84 | the members gained are the parsed keys. The reports are increasing, more than 10 MiB apart, each taken at a line end, and never more than 10 MiB behind any line end. The final report shows the total size |
| Scan.CountDistinct | main.go:132-138 | `NewBitSet`, then the scan of `processFile`, then `Count`: the count is the number of distinct keys of the lines that parse |
| Scan.OneLineReports | main.go:66-82 | for one line of exactly 10 MiB, the only report sequence the scan's contract allows is the single report 10 MiB + 1 |
| Scan.FinalReportCanDecrease | main.go:68-84 | one unterminated 10 MiB line with file size 10 MiB gives reports 10 MiB + 1 then 10 MiB, so the final report is smaller than the one before it |
| Scan.SixLines | main.go:66-82 | lines with keys `ka`, `ka`, `kb`, none, none, `ke` give the set `{ka, kb, ke}` |
| Scan.ExampleCount | main.go:66-82 | for the worked example `10.0.0.1`, `10.0.0.1`, `10.0.0.2`, `not-an-ip`, an empty line, `255.255.255.255`, the distinct keys are 0x0A000001, 0x0A000002 and 0xFFFFFFFF, three in all |
| Decimal.FormatInt | main.go:112 | `%d` writes at least one character: digits, plus a leading minus exactly for negative numbers, and no leading zero except in `0` itself |
| Decimal.ParseFormatInt | main.go:112-114 | reading back what `%d` writes gives the original number |
| Decimal.FormatIntInjective | main.go:112-114 | distinct numbers are written differently |
| Durations.ParseFormatDuration | main.go:109-115 | `ParseDuration(formatDuration(secs)) == secs` for every whole number of seconds |
| Durations.FormatDurationMinutes | main.go:113-114 | from a minute on, the text is `"<m>m <s>s"` with `m·60 + s = secs`, `m >= 1` and `0 <= s < 60` |
| Durations.FormatDurationInjective | main.go:109-115 | distinct second counts are shown differently |
| Durations.Repeat | main.go:117-123 | returns a sequence of length `count` whose every element is the given character |

## Left out

- File input is not modelled: `os.Open`, `file.Stat`, `bufio.Scanner`, `scanner.Err` and `file.Close`. The lines are a given sequence and the total size is a given integer. Effects of the scanner are left out with it: its 64 KiB line limit, which ends the scan with an error, and its removal of a trailing `\r`.
- The parsing inside `net.ParseIP` and `IP.To4` is left out. These library routines are not part of this model. They appear as function parameters.
- `printProgress` is left out. It does floating-point percentage and ETA arithmetic, reads the clock and writes to the terminal. Each call is recorded as the byte count passed as `current`.
- The conversion in `formatDuration` from a `time.Duration` to whole seconds is left out, because it goes through a float `Seconds()`. The model starts from integer seconds.
- `main` is left out: the argument check with its usage message, the `panic` on error and the final `fmt.Printf` of the count. The `fmt.Println` after the last progress report is left out too.
- Scan.ProcessLines: `processedBytes` and `lastPrinted` are unbounded integers. Go's `int64` would wrap only after 2^63 bytes, and that is not modelled.
- Scan.ScanLines: the same unbounded counters as `Scan.ProcessLines`.
- Scan.ProcessLines: the reports are not promised to be non-decreasing across the final report. `totalSize` is a separate parameter that is not related to the lines, and the source can make the final report smaller than the one before it (`Scan.FinalReportCanDecrease`).
- Scan.ProcessLines: a file size of 0 is not covered. `printProgress` then divides by zero and gets a NaN percentage. Converting NaN to `int` is implementation-defined in Go; if it yields a negative `filled`, `repeat` panics on the negative length. The model records only the byte count of each report.
- Address.IpToUint32: the error is the constructor `InvalidIPv4`. The formatted message text `invalid IPv4: <nil>` is not modelled.
- Durations.Repeat: a Go `rune` is modelled as a Dafny `char`, which holds only Unicode scalar values. A negative count would make Go's `make` panic, and the precondition rules it out.
