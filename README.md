# Disk transfer statistics

A Dafny model of the disk-transfer statistic of the DOL game server
(`GameServer/PerformanceStatistics/DiskTransferStatistics.cs`).

On Linux the statistic reads the kernel's `/proc/diskstats` and counts the
transfers completed by whole block devices. `LinuxTotalDiskTransfers.GetNextValue`
does the work:

- it splits the text at `'\n'`;
- it splits each line into non-empty words separated by `' '`;
- it skips lines with fewer than 14 columns;
- it skips partitions, which are rows whose name (column 2) ends in a digit;
- for every other row it adds reads completed (column 3), writes completed
  (column 7) and, when the row has at least 18 columns, discards completed
  (column 14).

The counters go through `Convert.ToInt64`, which throws on text that is not a
decimal `long`. The sum is a `long` under unchecked C# arithmetic, so it wraps
around.

The facade `DiskTransfersPerSecondStatistic` picks a backend once, in its
constructor: the Windows performance counter or the Linux per-second statistic.
It then forwards every reading to that backend.

Modules:

- `Results`: the `Result` datatype. A thrown exception is an `Err`.
- `Strings`:
  - `String.Split(char)`, which keeps empty pieces;
  - `Split` with `RemoveEmptyEntries` (`Tokens`), which drops them;
  - `String.Join`;
  - an independent description of tokenising, namely collapsing runs of spaces
    and trimming the ends (`Squeeze`).
- `Int64`:
  - the `long` range;
  - unchecked addition (`Add`), together with `Wrap`, the reduction into the
    range modulo 2^64;
  - `Convert.ToInt64` (`ParseInt64`) and its partner, the decimal text of a
    `long` (`Show`).
- `DiskStats`:
  - the specification of the total, in unbounded integers:
    - `RowTransfers` for one row;
    - `LineTotals` and `Sum` for a sequence of lines;
    - `DiskTotal` for a text;
  - the imperative `GetNextValue` and the body of its loop (`CountRow`), proved
    against that specification;
  - the properties of the total.
- `PerformanceStatistics`: the facade class.

`GetNextValue` keeps the running count in an `int64`. It is proved to return
the wrapped exact total: `Reported(DiskTotal(text))`, which is the total itself
whenever that fits in a `long`. If a counter does not parse, it returns the
exception of the first such counter, in line order and, within a line, in the
order reads, writes, discards.

The partition test looks only at the last character of the name. Whole devices
whose names end in a digit are therefore skipped like partitions (for example
`nvme0n1`, `mmcblk0`, `loop0`, `md0`). The model keeps that behaviour:
`DiskStats.PartitionRowIgnored` applies to any such row.

## Model

| member | source | states |
|---|---|---|
| DiskStats.GetNextValue | GameServer/PerformanceStatistics/DiskTransferStatistics.cs:53-71 | The result is the exact total of the text reduced modulo 2^64 into the `long` range, or the exception of the first counter that does not parse. When the total fits in a `long`, the result is the total itself. |
| DiskStats.CountRow | GameServer/PerformanceStatistics/DiskTransferStatistics.cs:60-68 | One pass of the loop body on the columns of a line. It throws exactly when the row's contribution is an error, and with that error. Otherwise its `long` equals the row's contribution modulo 2^64. |
| DiskStats.RowTransfers | GameServer/PerformanceStatistics/DiskTransferStatistics.cs:60-68 | What one line's columns add: 0 for a short line or a partition, otherwise the first failing parse among reads, writes and discards, or their exact sum. Its contract is stated by `DiskStats.DeviceRowTransfers` (the sum) and `DiskStats.RowFails` (exactly when it throws). |
| DiskStats.DiskTotal | GameServer/PerformanceStatistics/DiskTransferStatistics.cs:56-70 | The exact total of a whole `/proc/diskstats` text: the per-line contributions summed in line order, the first exception winning. Its properties are `DiskStats.DiskTotalJoin`, `DiskStats.LinesFail`, `DiskStats.InsertNonDeviceText`, `DiskStats.SingleLineTotal` and `DiskStats.EmptyTextTotalZero`; `DiskStats.GetNextValue` is proved against it. |
| Int64.ParseInt64 | GameServer/PerformanceStatistics/DiskTransferStatistics.cs:64-67 | `Convert.ToInt64`: optional white space, an optional sign and ASCII digits, else `FormatError`; a value outside the `long` range is `OverflowError`. Its contract is stated by `Int64.ParseShow` (round trip), `Int64.ParseBadCharacter`, `Int64.ParseOverflow` and `Int64.ParseIgnoresWhiteSpace`. |
| Int64.Add | GameServer/PerformanceStatistics/DiskTransferStatistics.cs:68 | Unchecked `long` addition: the exact sum corrected by at most one multiple of 2^64. Its contract is stated by `Int64.AddWraps` (it is the reduction of the exact sum) and `Int64.AddLaps`. |
| Strings.DropEmpty | GameServer/PerformanceStatistics/DiskTransferStatistics.cs:59 | The `RemoveEmptyEntries` filter: the non-empty pieces in order. Its contract is stated by `Strings.DropEmptyKeeps`, `Strings.DropEmptyNonEmpty`, `Strings.DropEmptyConcat` and `Strings.DropEmptyAll`. |
| Strings.Tokens | GameServer/PerformanceStatistics/DiskTransferStatistics.cs:59 | `line.Split(new[] { ' ' }, RemoveEmptyEntries)`: the columns of a line. Its contract is stated by `Strings.TokensAreWords` (non-empty, space-free columns), `Strings.JoinTokens` (against the independent `Squeeze`), `Strings.TokensOfJoin` and `Strings.TokensConcat`. |
| Strings.IsDigit | GameServer/PerformanceStatistics/DiskTransferStatistics.cs:62 | `char.IsDigit` on the ASCII digits `0` to `9`, the test for a partition name; used by `DiskStats.PartitionRowIgnored` and `Int64.AllDigitsAt`. |
| DiskStats.DeviceRowTransfers | GameServer/PerformanceStatistics/DiskTransferStatistics.cs:64-68 | A device row whose counters parse adds reads plus writes, plus discards when the row has at least 18 columns. |
| DiskStats.RowFails | GameServer/PerformanceStatistics/DiskTransferStatistics.cs:60-67 | A row throws if and only if it is a device row (at least 14 columns, name not ending in a digit) one of whose consumed counters does not parse. |
| DiskStats.LinesFail | GameServer/PerformanceStatistics/DiskTransferStatistics.cs:57-68 | Reading the lines throws if and only if some line is a device row with a bad counter. The exception is that of a line before which no line throws. |
| DiskStats.Plus | GameServer/PerformanceStatistics/DiskTransferStatistics.cs:64-68 | Adding two outcomes succeeds exactly when both succeed. An earlier exception wins over anything after it. |
| DiskStats.AddPart | GameServer/PerformanceStatistics/DiskTransferStatistics.cs:68 | After lines that did not throw, a line that adds `n` adds `n` to the running total. |
| DiskStats.FailPart | GameServer/PerformanceStatistics/DiskTransferStatistics.cs:64-67 | After lines that did not throw, a line that throws decides the outcome of the whole read. |
| DiskStats.SumStep | GameServer/PerformanceStatistics/DiskTransferStatistics.cs:57 | Taking one more line into the sum adds that line's outcome. |
| DiskStats.SumConcat | GameServer/PerformanceStatistics/DiskTransferStatistics.cs:57 | The total over two runs of lines is the sum of the two totals. |
| DiskStats.ErrorEndsRead | GameServer/PerformanceStatistics/DiskTransferStatistics.cs:64-67 | Once a prefix of the lines has thrown, the lines after it do not change the outcome. |
| DiskStats.InsertZero | GameServer/PerformanceStatistics/DiskTransferStatistics.cs:60-62 | A line that adds zero can be inserted anywhere without changing the total. |
| DiskStats.SumOfZeros | GameServer/PerformanceStatistics/DiskTransferStatistics.cs:60-62 | Lines that each add zero total zero. |
| DiskStats.OkParts | GameServer/PerformanceStatistics/DiskTransferStatistics.cs:57-68 | If the read does not throw, no line throws. |
| DiskStats.SumFails | GameServer/PerformanceStatistics/DiskTransferStatistics.cs:57-68 | The sum throws if and only if some line throws, and then with the outcome of the first line that throws. |
| DiskStats.LineTotalsConcat | GameServer/PerformanceStatistics/DiskTransferStatistics.cs:57-59 | Each line's contribution depends on that line alone: the contributions of two runs of lines are those of each run. |
| DiskStats.DiskTotalJoin | GameServer/PerformanceStatistics/DiskTransferStatistics.cs:57 | The total of `a + "\n" + b` is the total of `a` plus the total of `b`. |
| DiskStats.InsertNonDeviceText | GameServer/PerformanceStatistics/DiskTransferStatistics.cs:60-62 | A line that is not a device row, inserted between two texts, leaves the total unchanged. |
| DiskStats.ShortLineIgnored | GameServer/PerformanceStatistics/DiskTransferStatistics.cs:60 | A line of fewer than 14 columns, inserted between two lines, before the first line or after the last, leaves the total unchanged. |
| DiskStats.PartitionRowIgnored | GameServer/PerformanceStatistics/DiskTransferStatistics.cs:61-62 | A row whose device name ends in a digit, inserted between two lines, before the first line or after the last, leaves the total unchanged. |
| DiskStats.AddNonDeviceLineAtEnds | GameServer/PerformanceStatistics/DiskTransferStatistics.cs:60-62 | A line that is not a device row, put before the first line or after the last, leaves the total unchanged. |
| DiskStats.NoDeviceRowsTotalZero | GameServer/PerformanceStatistics/DiskTransferStatistics.cs:56-62 | Lines none of which is a device row total zero. |
| DiskStats.SingleLineTotal | GameServer/PerformanceStatistics/DiskTransferStatistics.cs:57-59 | A text without a line break totals what the row of its one line adds. |
| DiskStats.EmptyTextTotalZero | GameServer/PerformanceStatistics/DiskTransferStatistics.cs:56-57 | The empty file totals zero. |
| DiskStats.DiskWithPartitionExample | GameServer/PerformanceStatistics/DiskTransferStatistics.cs:53-71 | `sda` with 100 reads and 200 writes, followed by its partition `sda1`, totals 300. |
| DiskStats.DiskAndPartition | GameServer/PerformanceStatistics/DiskTransferStatistics.cs:57-68 | Any 14-column row of `sda` with reads `100` and writes `200`, followed by a row of `sda1`, totals 300. |
| DiskStats.ExampleDiskTotal | GameServer/PerformanceStatistics/DiskTransferStatistics.cs:59-68 | A 14-column `sda` line with reads `100` and writes `200` counts 300, with no discards. |
| DiskStats.ExamplePartitionTotal | GameServer/PerformanceStatistics/DiskTransferStatistics.cs:61-62 | A 14-column `sda1` line counts nothing. |
| Int64.Wrap | GameServer/PerformanceStatistics/DiskTransferStatistics.cs:68 | Reducing a value into the `long` range leaves a value already in range unchanged. |
| Int64.WrapDifference | GameServer/PerformanceStatistics/DiskTransferStatistics.cs:68 | The reduction differs from the value by a whole multiple of 2^64. |
| Int64.WrapIsModulo | GameServer/PerformanceStatistics/DiskTransferStatistics.cs:68 | The reduction is `(x - MIN) % 2^64 + MIN`. |
| Int64.WrapPeriodic | GameServer/PerformanceStatistics/DiskTransferStatistics.cs:68 | The reduction does not see a shift by 2^64. |
| Int64.WrapShift | GameServer/PerformanceStatistics/DiskTransferStatistics.cs:68 | The reduction does not see a shift by any multiple of 2^64. |
| Int64.WrapOf | GameServer/PerformanceStatistics/DiskTransferStatistics.cs:68 | A `long` that differs from `x` by a multiple of 2^64 is the reduction of `x`. |
| Int64.AddLaps | GameServer/PerformanceStatistics/DiskTransferStatistics.cs:68 | Unchecked addition of two `long`s differs from the exact sum by a multiple of 2^64. |
| Int64.AddWraps | GameServer/PerformanceStatistics/DiskTransferStatistics.cs:68 | Unchecked addition is the reduction of the exact sum. |
| Int64.WrapAdd | GameServer/PerformanceStatistics/DiskTransferStatistics.cs:68 | Reducing once in the middle of a sum changes nothing about the final reduction. |
| Int64.AddThree | GameServer/PerformanceStatistics/DiskTransferStatistics.cs:68 | `readIO + writeIO + discardIO` under unchecked arithmetic is the reduction of the exact sum. |
| Int64.WrapSum | GameServer/PerformanceStatistics/DiskTransferStatistics.cs:68 | Adding two reductions with unchecked arithmetic gives the reduction of the sum, so accumulating in a `long` gives the reduced total. |
| Int64.AddCounters | GameServer/PerformanceStatistics/DiskTransferStatistics.cs:68 | The `long` `readIO + writeIO + discardIO` is the exact sum reduced modulo 2^64 into the `long` range. The ghost count of the multiples of 2^64 it differs by is also returned. |
| Int64.AddLongs | GameServer/PerformanceStatistics/DiskTransferStatistics.cs:68 | The `long` `transferCount + lineCount` is the exact sum reduced modulo 2^64 into the `long` range. The ghost count of the multiples of 2^64 it differs by is also returned. |
| Int64.Digits | GameServer/PerformanceStatistics/DiskTransferStatistics.cs:64 | The decimal digits of `n` are a non-empty digit string whose value is `n`. |
| Int64.ParseShow | GameServer/PerformanceStatistics/DiskTransferStatistics.cs:64 | `Convert.ToInt64` of the decimal text of any `long` gives that `long` back. |
| Int64.ParseIgnoresWhiteSpace | GameServer/PerformanceStatistics/DiskTransferStatistics.cs:64-67 | One white-space character (U+0009 to U+000D or a space) added at either end of a counter does not change its parse, for example the `'\r'` of a `"\r\n"` line end. |
| Int64.ParseBadCharacter | GameServer/PerformanceStatistics/DiskTransferStatistics.cs:64-67 | A character that is neither white space, a sign nor a digit makes `Convert.ToInt64` throw `FormatException`. |
| Int64.ParseOverflow | GameServer/PerformanceStatistics/DiskTransferStatistics.cs:64-67 | The digits of a number above `long.MaxValue` make `Convert.ToInt64` throw `OverflowException`. |
| Int64.AllDigitsAt | GameServer/PerformanceStatistics/DiskTransferStatistics.cs:64 | Every character of a digit string is a digit. |
| Int64.TrimWhiteStartSuffix | GameServer/PerformanceStatistics/DiskTransferStatistics.cs:64 | Trimming the front of a counter removes only white space. |
| Int64.TrimWhiteEndPrefix | GameServer/PerformanceStatistics/DiskTransferStatistics.cs:64 | Trimming the end of a counter removes only white space. |
| Int64.TrimStartAppend | GameServer/PerformanceStatistics/DiskTransferStatistics.cs:64 | Appending white space to a counter appends it after the front trimming. |
| Strings.Split | GameServer/PerformanceStatistics/DiskTransferStatistics.cs:57 | Splitting gives at least one piece. |
| Strings.SplitPieces | GameServer/PerformanceStatistics/DiskTransferStatistics.cs:57 | There is one piece more than there are separators, and no piece contains the separator. |
| Strings.JoinSplit | GameServer/PerformanceStatistics/DiskTransferStatistics.cs:57 | Joining the pieces with the separator gives the text back. |
| Strings.SplitJoin | GameServer/PerformanceStatistics/DiskTransferStatistics.cs:57 | Splitting the join of separator-free pieces gives the pieces back. |
| Strings.SplitConcat | GameServer/PerformanceStatistics/DiskTransferStatistics.cs:57 | The pieces of `a + sep + b` are the pieces of `a` followed by those of `b`. |
| Strings.SplitAroundLine | GameServer/PerformanceStatistics/DiskTransferStatistics.cs:57 | A separator-free line between two separators is one piece between the pieces of the two sides. |
| Strings.SplitWithoutSeparator | GameServer/PerformanceStatistics/DiskTransferStatistics.cs:57 | A text without the separator is a single piece. |
| Strings.JoinAvoids | GameServer/PerformanceStatistics/DiskTransferStatistics.cs:57-59 | The join of parts that avoid a character other than the separator avoids that character. |
| Strings.DropEmptyKeeps | GameServer/PerformanceStatistics/DiskTransferStatistics.cs:59 | `RemoveEmptyEntries` keeps only pieces that were there. |
| Strings.DropEmptyNonEmpty | GameServer/PerformanceStatistics/DiskTransferStatistics.cs:59 | `RemoveEmptyEntries` keeps no empty piece. |
| Strings.DropEmptyConcat | GameServer/PerformanceStatistics/DiskTransferStatistics.cs:59 | Removing empty entries distributes over concatenation. |
| Strings.DropEmptyAll | GameServer/PerformanceStatistics/DiskTransferStatistics.cs:59 | Pieces that are all non-empty are kept as they are. |
| Strings.TokensAreWords | GameServer/PerformanceStatistics/DiskTransferStatistics.cs:59-62 | Every column is non-empty and holds no space, so `deviceName[deviceName.Length - 1]` is always in range. |
| Strings.TokensConcat | GameServer/PerformanceStatistics/DiskTransferStatistics.cs:59 | The columns of `a + " " + b` are those of `a` followed by those of `b`. |
| Strings.TokensOfJoin | GameServer/PerformanceStatistics/DiskTransferStatistics.cs:59 | The columns of non-empty, space-free words joined by spaces are those words. |
| Strings.TokensCons | GameServer/PerformanceStatistics/DiskTransferStatistics.cs:59 | The columns of `c + r`: a leading space adds nothing; otherwise `c` starts a new column or extends the first one. |
| Strings.JoinTokens | GameServer/PerformanceStatistics/DiskTransferStatistics.cs:59 | The columns joined by single spaces are the line with runs of spaces collapsed and its ends trimmed. |
| PerformanceStatistics.BackendFor | GameServer/PerformanceStatistics/DiskTransferStatistics.cs:15-16 | Windows gets the performance counter; every other platform gets the Linux statistic. |
| PerformanceStatistics.DiskTransfersPerSecondStatistic.constructor | GameServer/PerformanceStatistics/DiskTransferStatistics.cs:13-17 | The backend is the one chosen for the platform, and it never changes afterwards. |
| PerformanceStatistics.DiskTransfersPerSecondStatistic.GetNextValue | GameServer/PerformanceStatistics/DiskTransferStatistics.cs:19 | A reading is the chosen backend's reading, and the backend that was not chosen is never consulted. |

## Left out

- Reading `/proc/diskstats` (`File.ReadAllText`) is I/O. `DiskStats.GetNextValue` takes the file's text as a parameter.
- DiskStats.GetNextValue: returns the `long` count, not the `float` that the C# method converts it to on return, because floating point is not modelled.
- `WindowsDiskTransfersPerSecondStatistic` reads the operating system's `PerformanceCounter`. That is a foreign call, so the facade takes its reading as a parameter.
- `PerSecondStatistic` is not part of this model. The Linux wrapper `LinuxDiskTransfersPerSecondStatistic` (lines 43-48) turns the total into a rate over time through it. Its reading is passed to the facade as a parameter.
- PerformanceStatistics.DiskTransfersPerSecondStatistic.GetNextValue: backend failures are not represented. On Windows, constructing the `PerformanceCounter` (line 30) throws when the counter is missing, but the model's constructor cannot fail. On Linux, the reading propagates whatever `LinuxTotalDiskTransfers.GetNextValue` throws: the `FormatException`/`OverflowException` that `DiskStats.GetNextValue` models as `Err`, and the I/O error of line 55. The facade's reading is a plain value and cannot be a failure. The C# `float` reading is a Dafny `real`.
- `RuntimeInformation.IsOSPlatform` is an environment query. It is the constructor's `isWindows` parameter.
- Strings.IsDigit: models `char.IsDigit` on ASCII digits only. .NET also accepts other Unicode decimal digits, which kernel device names do not contain.
- Int64.ParseInt64: models `Convert.ToInt64` with the invariant culture's signs `+` and `-` only, and without the trailing NUL characters .NET also tolerates. Neither occurs in the kernel's counters.
- DiskStats.CountRow: is a separate method for the body of the C# `foreach`. The `continue` statements become early returns of zero.
- `PerformanceCounterStatistic` (PerformaceCounterStatistics.cs) and `ArcheryDoT.cs` are outside the disk statistic and are not modelled.
- Strings.Tokens: a Dafny `string` is a sequence of Unicode scalar values, while a C# `string` is a sequence of UTF-16 code units. A lone surrogate, which a C# `string` can hold, cannot occur in the model, and a character outside the Basic Multilingual Plane is one Dafny `char` but two C# `char`s. Only `' '`, `'\n'`, ASCII white space and ASCII digits are inspected, so no result differs. No encoding or normalisation is modelled.
