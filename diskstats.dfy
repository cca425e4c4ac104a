/**
  `LinuxTotalDiskTransfers`: the cumulative number of disk transfers (reads,
  writes and discards completed) over the whole devices listed in the text of
  the kernel's `/proc/diskstats`. Each line there describes one block device:
  major and minor number, device name, then counters; partitions, whose names
  end in a digit, are left out so that no transfer is counted twice.
 */
module DiskStats {
  import opened Results
  import opened Strings
  import opened Int64

  /** Fewer columns than this and a line is not a device record. */
  const MIN_COLUMNS: nat := 14
  /** Kernels that count discards print at least this many columns. */
  const DISCARD_COLUMNS: nat := 18

  const NAME_COLUMN: nat := 2
  const READS_COLUMN: nat := 3
  const WRITES_COLUMN: nat := 7
  const DISCARDS_COLUMN: nat := 14

  /** The columns of one line, as the tokeniser gives them. */
  type Row = seq<string>

  /** A transfer count in unbounded arithmetic, or the exception that ended the read. */
  type Total = Result<int, ParseError>

  /** The sum of two totals. The first error wins, as the first exception thrown ends the read. */
  function Plus(a: Total, b: Total): (r: Total)
    ensures r.Ok? <==> a.Ok? && b.Ok?
    ensures a.Err? ==> r == a
  {
    match a
    case Err(_) => a
    case Ok(x) =>
      match b
      case Err(_) => b
      case Ok(y) => Ok(x + y)
  }

  function Widen(r: Result<int64, ParseError>): Total {
    match r
    case Ok(v) => Ok(v as int)
    case Err(e) => Err(e)
  }

  /** A total as the method reports it: the count kept modulo 2^64 in a `long`. */
  function Reported(t: Total): Result<int64, ParseError> {
    match t
    case Ok(v) => Ok(Wrap(v))
    case Err(e) => Err(e)
  }

  /** The name of a partition (`sda1`, `nvme0n1p2`) ends in a digit. */
  predicate EndsInDigit(name: string) {
    name != [] && IsDigit(name[|name| - 1])
  }

  /** The columns of a line describe a whole device: enough columns, and a name not ending in a digit. */
  predicate IsDeviceRow(columns: Row) {
    |columns| >= MIN_COLUMNS && !EndsInDigit(columns[NAME_COLUMN])
  }

  /** A device row one of whose consumed counters does not parse as a `long`. */
  predicate HasBadCounter(columns: Row) {
    IsDeviceRow(columns) &&
    (ParseInt64(columns[READS_COLUMN]).Err? ||
     ParseInt64(columns[WRITES_COLUMN]).Err? ||
     (|columns| >= DISCARD_COLUMNS && ParseInt64(columns[DISCARDS_COLUMN]).Err?))
  }

  /**
    What one line with these columns adds to the total: nothing unless it is a
    device row, and otherwise reads plus writes, plus discards when the kernel
    prints them. Counters are parsed in the order reads, writes, discards.
   */
  function RowTransfers(columns: Row): Total {
    if !IsDeviceRow(columns) then Ok(0)
    else
      var discards := if |columns| >= DISCARD_COLUMNS then Widen(ParseInt64(columns[DISCARDS_COLUMN])) else Ok(0);
      Plus(Plus(Widen(ParseInt64(columns[READS_COLUMN])), Widen(ParseInt64(columns[WRITES_COLUMN]))), discards)
  }

  /** What each line adds, in order. */
  function LineTotals(lines: seq<string>): (parts: seq<Total>)
    ensures |parts| == |lines|
  {
    seq(|lines|, i requires 0 <= i < |lines| => RowTransfers(Tokens(lines[i])))
  }

  /** The sum of the parts, read in order: the first part that throws ends the read. */
  function Sum(parts: seq<Total>): Total {
    if parts == [] then Ok(0)
    else Plus(Sum(parts[..|parts| - 1]), parts[|parts| - 1])
  }

  /** The total over the `'\n'`-separated lines of a `/proc/diskstats` text. */
  function DiskTotal(diskstats: string): Total {
    Sum(LineTotals(Split(diskstats, '\n')))
  }

  /**
    `LinuxTotalDiskTransfers.GetNextValue`, given the contents of
    `/proc/diskstats`: the total of the text, kept in a `long` that wraps around
    (C# arithmetic is unchecked), or the exception of the first counter that
    does not parse.
   */
  method GetNextValue(diskstats: string) returns (r: Result<int64, ParseError>)
    ensures r == Reported(DiskTotal(diskstats))
    ensures DiskTotal(diskstats).Ok? && MIN <= DiskTotal(diskstats).value <= MAX ==>
      r == Ok(DiskTotal(diskstats).value as int64)
  {
    var lines := Split(diskstats, '\n');
    ghost var parts := LineTotals(lines);
    var transferCount: int64 := 0;
    // How many times 2^64 the running `long` has lost against the exact count.
    ghost var laps := 0;
    for i := 0 to |lines|
      invariant Sum(parts[..i]).Ok?
      invariant transferCount as int == Sum(parts[..i]).value - laps * MODULUS
    {
      var columns := Tokens(lines[i]);
      LineColumns(lines, i);
      var count, lineLaps := CountRow(columns);
      if count.Err? {
        r := Err(count.error);
        FailPart(parts, i);
        return;
      }
      AddPart(parts, i, parts[i].value);
      ghost var sumLaps;
      transferCount, sumLaps := AddLongs(transferCount, count.value);
      laps := laps + lineLaps + sumLaps;
    }
    assert parts[..|parts|] == parts;
    WrapOf(DiskTotal(diskstats).value, laps, transferCount);
    r := Ok(transferCount);
  }

  /**
    The body of the loop of `GetNextValue` for the columns of one line: what
    the line adds, in a `long`, or the exception of its first counter that does
    not parse. Short lines and partitions add nothing.
   */
  method CountRow(columns: Row) returns (count: Result<int64, ParseError>, ghost laps: int)
    requires forall w :: w in columns ==> w != []
    ensures count.Err? <==> RowTransfers(columns).Err?
    ensures count.Err? ==> RowTransfers(columns) == Err(count.error)
    ensures count.Ok? ==> count.value as int == RowTransfers(columns).value - laps * MODULUS
  {
    laps := 0;
    if |columns| < MIN_COLUMNS {
      return Ok(0), 0;
    }
    var deviceName := columns[NAME_COLUMN];
    assert deviceName in columns;
    if IsDigit(deviceName[|deviceName| - 1]) {
      return Ok(0), 0;
    }
    var readIO: int64, writeIO: int64, discardIO: int64 := 0, 0, 0;
    var parsed := ParseInt64(columns[READS_COLUMN]);
    if parsed.Err? {
      return Err(parsed.error), 0;
    }
    readIO := parsed.value;
    parsed := ParseInt64(columns[WRITES_COLUMN]);
    if parsed.Err? {
      return Err(parsed.error), 0;
    }
    writeIO := parsed.value;
    if |columns| >= DISCARD_COLUMNS {
      parsed := ParseInt64(columns[DISCARDS_COLUMN]);
      if parsed.Err? {
        return Err(parsed.error), 0;
      }
      discardIO := parsed.value;
    }
    DeviceRowTransfers(columns, readIO, writeIO, discardIO);
    var lineCount: int64;
    lineCount, laps := AddCounters(readIO, writeIO, discardIO);
    count := Ok(lineCount);
  }

  /** The columns of a line are non-empty words, and what the line adds is what its row adds. */
  lemma LineColumns(lines: seq<string>, i: nat)
    requires i < |lines|
    ensures forall w :: w in Tokens(lines[i]) ==> w != []
    ensures LineTotals(lines)[i] == RowTransfers(Tokens(lines[i]))
  {
    TokensAreWords(lines[i]);
  }

  /** A part that throws, after parts that did not, is the outcome of the whole read. */
  lemma FailPart(parts: seq<Total>, i: nat)
    requires i < |parts|
    requires Sum(parts[..i]).Ok?
    requires parts[i].Err?
    ensures Sum(parts) == parts[i]
  {
    SumStep(parts, i);
    ErrorEndsRead(parts, i + 1);
  }

  /** A part of `n`, after parts that did not throw, adds `n` to their sum. */
  lemma AddPart(parts: seq<Total>, i: nat, n: int)
    requires i < |parts|
    requires Sum(parts[..i]).Ok?
    requires parts[i] == Ok(n)
    ensures Sum(parts[..i + 1]) == Ok(Sum(parts[..i]).value + n)
  {
    SumStep(parts, i);
  }

  /** What a device row whose counters parse adds: reads, writes and (if printed) discards. */
  lemma DeviceRowTransfers(columns: Row, readCount: int64, writeCount: int64, discardCount: int64)
    requires IsDeviceRow(columns)
    requires ParseInt64(columns[READS_COLUMN]) == Ok(readCount)
    requires ParseInt64(columns[WRITES_COLUMN]) == Ok(writeCount)
    requires if |columns| >= DISCARD_COLUMNS
      then ParseInt64(columns[DISCARDS_COLUMN]) == Ok(discardCount)
      else discardCount == 0
    ensures RowTransfers(columns) == Ok(readCount as int + writeCount as int + discardCount as int)
  {
  }

  /** A row throws exactly when it is a device row with a counter that does not parse. */
  lemma RowFails(columns: Row)
    ensures RowTransfers(columns).Err? <==> HasBadCounter(columns)
  {
  }

  // ---------------------------------------------------------------------------
  // Properties of the sum

  lemma PlusAssociative(a: Total, b: Total, c: Total)
    ensures Plus(Plus(a, b), c) == Plus(a, Plus(b, c))
  {
  }

  /** Taking one more part adds it. */
  lemma SumStep(parts: seq<Total>, i: nat)
    requires i < |parts|
    ensures Sum(parts[..i + 1]) == Plus(Sum(parts[..i]), parts[i])
  {
    assert parts[..i + 1][..i] == parts[..i];
  }

  /** The sum over two runs of parts is the sum of their sums. */
  lemma {:induction false} SumConcat(a: seq<Total>, b: seq<Total>)
    ensures Sum(a + b) == Plus(Sum(a), Sum(b))
    decreases |b|
  {
    if b == [] {
      assert a + b == a;
    } else {
      var b' := b[..|b| - 1];
      assert (a + b)[..|a + b| - 1] == a + b';
      assert (a + b)[|a + b| - 1] == b[|b| - 1];
      SumConcat(a, b');
      PlusAssociative(Sum(a), Sum(b'), b[|b| - 1]);
    }
  }

  /** Once a part has thrown, the parts after it change nothing. */
  lemma ErrorEndsRead(parts: seq<Total>, n: nat)
    requires n <= |parts|
    requires Sum(parts[..n]).Err?
    ensures Sum(parts) == Sum(parts[..n])
  {
    assert parts == parts[..n] + parts[n..];
    SumConcat(parts[..n], parts[n..]);
  }

  /** A part of zero can be put anywhere without changing the sum. */
  lemma InsertZero(a: seq<Total>, b: seq<Total>)
    ensures Sum(a + [Ok(0)] + b) == Sum(a + b)
  {
    var zero: seq<Total> := [Ok(0)];
    assert zero[..0] == [];
    SumConcat(a + zero, b);
    SumConcat(a, zero);
    SumConcat(a, b);
  }

  /** Parts that are all zero sum to zero. */
  lemma {:induction false} SumOfZeros(parts: seq<Total>)
    requires forall i :: 0 <= i < |parts| ==> parts[i] == Ok(0)
    ensures Sum(parts) == Ok(0)
  {
    if parts != [] {
      SumOfZeros(parts[..|parts| - 1]);
    }
  }

  /** If the sum does not throw, no part does. */
  lemma {:induction false} OkParts(parts: seq<Total>, i: nat)
    requires Sum(parts).Ok?
    requires i < |parts|
    ensures parts[i].Ok?
    decreases |parts|
  {
    if i < |parts| - 1 {
      assert parts[..|parts| - 1][i] == parts[i];
      OkParts(parts[..|parts| - 1], i);
    }
  }

  /** The sum throws exactly when some part does, and then with the first part that throws. */
  lemma {:induction false} SumFails(parts: seq<Total>)
    ensures Sum(parts).Err? <==> exists i :: 0 <= i < |parts| && parts[i].Err?
    ensures Sum(parts).Err? ==>
      exists i :: 0 <= i < |parts| && Sum(parts) == parts[i] && forall j :: 0 <= j < i ==> parts[j].Ok?
    decreases |parts|
  {
    if parts != [] {
      var init := parts[..|parts| - 1];
      SumFails(init);
      if Sum(init).Err? {
        var i :| 0 <= i < |init| && Sum(init) == init[i] && forall j :: 0 <= j < i ==> init[j].Ok?;
        assert parts[i] == init[i];
        assert forall j :: 0 <= j < i ==> parts[j].Ok? by {
          forall j | 0 <= j < i ensures parts[j].Ok? { assert parts[j] == init[j]; }
        }
      } else {
        forall j | 0 <= j < |init| ensures parts[j].Ok? {
          OkParts(init, j);
          assert parts[j] == init[j];
        }
      }
    }
  }

  // ---------------------------------------------------------------------------
  // Properties of the total over a text

  /** What two runs of lines add is what each adds. */
  lemma LineTotalsConcat(a: seq<string>, b: seq<string>)
    ensures LineTotals(a + b) == LineTotals(a) + LineTotals(b)
  {
    assert forall i :: 0 <= i < |a + b| ==> (a + b)[i] == if i < |a| then a[i] else b[i - |a|];
  }

  /** The total over two texts joined by a line break is the sum of their totals. */
  lemma DiskTotalJoin(a: string, b: string)
    ensures DiskTotal(a + ['\n'] + b) == Plus(DiskTotal(a), DiskTotal(b))
  {
    var la, lb := Split(a, '\n'), Split(b, '\n');
    SplitConcat(a, b, '\n');
    LineTotalsConcat(la, lb);
    SumConcat(LineTotals(la), LineTotals(lb));
  }

  /** A line that is not a device row, put between two texts, changes nothing. */
  lemma InsertNonDeviceText(a: string, line: string, b: string)
    requires '\n' !in line
    requires !IsDeviceRow(Tokens(line))
    ensures DiskTotal(a + ['\n'] + line + ['\n'] + b) == DiskTotal(a + ['\n'] + b)
  {
    var la, lb := Split(a, '\n'), Split(b, '\n');
    SplitAroundLine(a, line, b, '\n');
    SplitConcat(a, b, '\n');
    LineTotalsConcat(la + [line], lb);
    LineTotalsConcat(la, [line]);
    LineTotalsConcat(la, lb);
    assert LineTotals([line]) == [Ok(0)];
    InsertZero(LineTotals(la), LineTotals(lb));
  }

  /** A line that is not a device row, put before the first line or after the last, changes nothing. */
  lemma AddNonDeviceLineAtEnds(line: string, t: string)
    requires '\n' !in line
    requires !IsDeviceRow(Tokens(line))
    ensures DiskTotal(line + ['\n'] + t) == DiskTotal(t)
    ensures DiskTotal(t + ['\n'] + line) == DiskTotal(t)
  {
    SingleLineTotal(line);
    DiskTotalJoin(line, t);
    DiskTotalJoin(t, line);
  }

  /**
    A short record (fewer than 14 columns) changes nothing wherever it is
    inserted: between two lines, before the first or after the last.
   */
  lemma ShortLineIgnored(a: string, line: string, b: string)
    requires '\n' !in line
    requires |Tokens(line)| < MIN_COLUMNS
    ensures DiskTotal(a + ['\n'] + line + ['\n'] + b) == DiskTotal(a + ['\n'] + b)
    ensures DiskTotal(line + ['\n'] + b) == DiskTotal(b)
    ensures DiskTotal(a + ['\n'] + line) == DiskTotal(a)
  {
    InsertNonDeviceText(a, line, b);
    AddNonDeviceLineAtEnds(line, a);
    AddNonDeviceLineAtEnds(line, b);
  }

  /**
    A partition row (a name ending in a digit) changes nothing wherever it is
    inserted: between two lines, before the first or after the last.
   */
  lemma PartitionRowIgnored(a: string, line: string, b: string)
    requires '\n' !in line
    requires |Tokens(line)| >= MIN_COLUMNS
    requires EndsInDigit(Tokens(line)[NAME_COLUMN])
    ensures DiskTotal(a + ['\n'] + line + ['\n'] + b) == DiskTotal(a + ['\n'] + b)
    ensures DiskTotal(line + ['\n'] + b) == DiskTotal(b)
    ensures DiskTotal(a + ['\n'] + line) == DiskTotal(a)
  {
    InsertNonDeviceText(a, line, b);
    AddNonDeviceLineAtEnds(line, a);
    AddNonDeviceLineAtEnds(line, b);
  }

  /** A text of one line totals what that line's row adds. */
  lemma SingleLineTotal(line: string)
    requires '\n' !in line
    ensures DiskTotal(line) == RowTransfers(Tokens(line))
  {
    SplitWithoutSeparator(line, '\n');
    var parts := LineTotals([line]);
    assert parts == [RowTransfers(Tokens(line))];
    assert parts[..0] == [];
    assert Sum(parts) == Plus(Ok(0), parts[0]);
  }

  /** Lines none of which is a device row (short lines, partitions) total zero. */
  lemma NoDeviceRowsTotalZero(lines: seq<string>)
    requires forall i :: 0 <= i < |lines| ==> !IsDeviceRow(Tokens(lines[i]))
    ensures Sum(LineTotals(lines)) == Ok(0)
  {
    SumOfZeros(LineTotals(lines));
  }

  /** The empty text totals zero. */
  lemma EmptyTextTotalZero()
    ensures DiskTotal([]) == Ok(0)
  {
    SingleLineTotal([]);
  }

  /**
    Reading the lines fails exactly when one of them is a device row with a bad
    counter, and then with the error of the first line that throws.
   */
  lemma LinesFail(lines: seq<string>)
    ensures Sum(LineTotals(lines)).Err? <==> exists i :: 0 <= i < |lines| && HasBadCounter(Tokens(lines[i]))
    ensures Sum(LineTotals(lines)).Err? ==>
      exists i :: 0 <= i < |lines| && Sum(LineTotals(lines)) == RowTransfers(Tokens(lines[i])) &&
        forall j :: 0 <= j < i ==> !HasBadCounter(Tokens(lines[j]))
  {
    var parts := LineTotals(lines);
    SumFails(parts);
    forall i | 0 <= i < |lines| ensures parts[i].Err? <==> HasBadCounter(Tokens(lines[i])) {
      RowFails(Tokens(lines[i]));
    }
  }

  /**
    The example of a small `/proc/diskstats`: a whole disk with 100 reads and
    200 writes and no discard column, and one of its partitions, which is not
    counted again.
   */
  lemma DiskWithPartitionExample()
    ensures DiskTotal(Join(ExampleDisk(), ' ') + ['\n'] + Join(ExamplePartition(), ' ')) == Ok(300)
  {
    DiskAndPartition(ExampleDisk(), ExamplePartition());
  }

  /** Any disk row `_ _ sda 100 _ _ _ 200 ...` of 14 columns, followed by a row of partition `sda1`. */
  lemma DiskAndPartition(disk: seq<string>, partition: seq<string>)
    requires forall w :: w in disk ==> w != [] && ' ' !in w && '\n' !in w
    requires |disk| == 14 && disk[2] == "sda" && disk[3] == "100" && disk[7] == "200"
    requires forall w :: w in partition ==> w != [] && ' ' !in w && '\n' !in w
    requires |partition| == 14 && partition[2] == "sda1"
    ensures DiskTotal(Join(disk, ' ') + ['\n'] + Join(partition, ' ')) == Ok(300)
  {
    var diskLine, partitionLine := Join(disk, ' '), Join(partition, ' ');
    TokensOfJoin(disk);
    TokensOfJoin(partition);
    JoinAvoids(disk, ' ', '\n');
    JoinAvoids(partition, ' ', '\n');
    ExampleDiskTotal(diskLine);
    ExamplePartitionTotal(partitionLine);
    DiskTotalJoin(diskLine, partitionLine);
  }

  lemma ExampleDiskTotal(line: string)
    requires '\n' !in line
    requires |Tokens(line)| == 14 && Tokens(line)[2] == "sda"
    requires Tokens(line)[3] == "100" && Tokens(line)[7] == "200"
    ensures DiskTotal(line) == Ok(300)
  {
    ParseShow(100);
    assert Show(100) == "100";
    ParseShow(200);
    assert Show(200) == "200";
    DeviceRowTransfers(Tokens(line), 100, 200, 0);
    SingleLineTotal(line);
  }

  lemma ExamplePartitionTotal(line: string)
    requires '\n' !in line
    requires |Tokens(line)| == 14 && Tokens(line)[2] == "sda1"
    ensures DiskTotal(line) == Ok(0)
  {
    SingleLineTotal(line);
  }

  /** The columns of `8 0 sda 100 0 0 0 200 0 0 0 0 0 0`. */
  function ExampleDisk(): seq<string> {
    ["8", "0", "sda", "100", "0", "0", "0", "200", "0", "0", "0", "0", "0", "0"]
  }

  /** The columns of `8 1 sda1 60 0 0 0 90 0 0 0 0 0 0`. */
  function ExamplePartition(): seq<string> {
    ["8", "1", "sda1", "60", "0", "0", "0", "90", "0", "0", "0", "0", "0", "0"]
  }
}
