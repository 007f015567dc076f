/**
 * The scan loop of `processFile`: every line adds its length plus one
 * terminator byte to the processed count, every line that parses to an
 * address with a 4-octet form sets that address's key, and progress is
 * reported each time the bytes processed since the last report exceed
 * 10 MiB, with one final report of the whole file size.
 *
 * The file and the scanner are replaced by the sequence of lines it yields;
 * a call of `printProgress` is recorded as the byte count passed to it as
 * `current`.
 */
module Scan {
  import opened Wrappers
  import opened BitSets
  import opened Address

  /** The bytes of one line, terminator stripped; Go's `len` counts them. */
  type Line = seq<Byte>

  /** `10*1024*1024`: progress is reported once more than this many bytes have passed. */
  const ProgressInterval: int := 10 * 1024 * 1024

  /** The key a line contributes, if it parses and has a 4-octet form. */
  function LineKey(line: Line, parse: ParseOracle, to4: To4Oracle): (r: Option<Key>)
    ensures r.Some? <==> parse(line).Some? && to4(parse(line).value).Some?
    ensures r.Some? ==> Octets(r.value) == to4(parse(line).value).value
  {
    match parse(line)
    case None => None
    case Some(ip) =>
      match IpToUint32(ip, to4)
      case Failure(_) => None
      case Success(k) => Some(k)
  }

  function KeySet(k: Option<Key>): set<int>
  {
    match k
    case None => {}
    case Some(v) => {v}
  }

  /** The distinct keys of the lines that parse. */
  ghost function ParsedKeys(lines: seq<Line>, parse: ParseOracle, to4: To4Oracle): set<int>
  {
    if lines == [] then {}
    else ParsedKeys(lines[..|lines| - 1], parse, to4) + KeySet(LineKey(lines[|lines| - 1], parse, to4))
  }

  /** The bytes a sequence of lines accounts for: each line and its terminator. */
  function ConsumedBytes(lines: seq<Line>): nat
  {
    if lines == [] then 0
    else ConsumedBytes(lines[..|lines| - 1]) + |lines[|lines| - 1]| + 1
  }

  /** A key is parsed from a sequence of lines exactly when some line yields it. */
  lemma {:induction false} ParsedKeysChar(lines: seq<Line>, parse: ParseOracle, to4: To4Oracle, k: int)
    ensures k in ParsedKeys(lines, parse, to4) <==>
      exists i :: 0 <= i < |lines| && LineKey(lines[i], parse, to4) == Some(k)
  {
    if lines != [] {
      var init := lines[..|lines| - 1];
      ParsedKeysChar(init, parse, to4, k);
      if k in ParsedKeys(lines, parse, to4) && k !in ParsedKeys(init, parse, to4) {
        assert LineKey(lines[|lines| - 1], parse, to4) == Some(k);
      }
      if exists i :: 0 <= i < |lines| && LineKey(lines[i], parse, to4) == Some(k) {
        var i :| 0 <= i < |lines| && LineKey(lines[i], parse, to4) == Some(k);
        if i < |lines| - 1 {
          assert init[i] == lines[i];
        }
      }
    }
  }

  /** Scanning two pieces of input yields the keys of both. */
  lemma {:induction false} ParsedKeysAppend(a: seq<Line>, b: seq<Line>, parse: ParseOracle, to4: To4Oracle)
    ensures ParsedKeys(a + b, parse, to4) == ParsedKeys(a, parse, to4) + ParsedKeys(b, parse, to4)
    decreases |b|
  {
    if b == [] {
      assert a + b == a;
    } else {
      var b' := b[..|b| - 1];
      assert (a + b)[..|a + b| - 1] == a + b';
      ParsedKeysAppend(a, b', parse, to4);
    }
  }

  /** Repeating the input adds no key: duplicates are counted once. */
  lemma {:induction false} ParsedKeysRepeated(lines: seq<Line>, parse: ParseOracle, to4: To4Oracle)
    ensures ParsedKeys(lines + lines, parse, to4) == ParsedKeys(lines, parse, to4)
  {
    ParsedKeysAppend(lines, lines, parse, to4);
  }

  /** A line that does not parse, or has no 4-octet form, adds no key. */
  lemma {:induction false} SkippedLine(lines: seq<Line>, line: Line, parse: ParseOracle, to4: To4Oracle)
    requires parse(line).None? || to4(parse(line).value).None?
    ensures ParsedKeys(lines + [line], parse, to4) == ParsedKeys(lines, parse, to4)
  {
    assert (lines + [line])[..|lines|] == lines;
  }

  /** More lines never account for fewer bytes, and each line accounts for at least one. */
  lemma {:induction false} ConsumedBytesGrows(lines: seq<Line>, i: nat, j: nat)
    requires i <= j <= |lines|
    ensures ConsumedBytes(lines[..i]) + (j - i) <= ConsumedBytes(lines[..j])
    decreases j - i
  {
    if i < j {
      ConsumedBytesGrows(lines, i, j - 1);
      assert lines[..j][..j - 1] == lines[..j - 1];
    }
  }

  /** The latest report at or below byte count `x` (0 before the first), for increasing `ticks`. */
  function LastTick(ticks: seq<int>, x: int): int
  {
    if ticks == [] then 0
    else if ticks[|ticks| - 1] <= x then ticks[|ticks| - 1]
    else LastTick(ticks[..|ticks| - 1], x)
  }

  /** Any two reports lie more than the interval apart, in order, and the first lies that far from 0. */
  predicate Spaced(ticks: seq<int>)
  {
    (|ticks| > 0 ==> ticks[0] > ProgressInterval) &&
    forall i, j :: 0 <= i < j < |ticks| ==> ticks[j] - ticks[i] > ProgressInterval
  }

  /** A report more than the interval after the previous one (or after 0) keeps the reports spaced. */
  lemma {:induction false} SpacedStep(ticks: seq<int>, t: int)
    requires Spaced(ticks)
    requires t - (if ticks == [] then 0 else ticks[|ticks| - 1]) > ProgressInterval
    ensures Spaced(ticks + [t])
  {
    var ticks' := ticks + [t];
    forall i, j | 0 <= i < j < |ticks'|
      ensures ticks'[j] - ticks'[i] > ProgressInterval
    {
      if j == |ticks| && i < |ticks| - 1 {
        assert ticks[|ticks| - 1] - ticks[i] > ProgressInterval;
      }
    }
  }

  /** Every report is the byte count reached after some line. */
  ghost predicate AtLineEnds(ticks: seq<int>, lines: seq<Line>, n: nat)
    requires n <= |lines|
  {
    forall j :: 0 <= j < |ticks| ==>
      exists i :: 0 < i <= n && ticks[j] == ConsumedBytes(lines[..i])
  }

  /** After each of the first `n` lines, the latest report is at most the interval behind. */
  ghost predicate NeverBehind(ticks: seq<int>, lines: seq<Line>, n: nat)
    requires n <= |lines|
  {
    forall i :: 0 <= i <= n ==>
      ConsumedBytes(lines[..i]) - LastTick(ticks, ConsumedBytes(lines[..i])) <= ProgressInterval
  }

  /** The scan of one more line adds that line's bytes and its key. */
  lemma {:induction false} PrefixStep(lines: seq<Line>, n: nat, parse: ParseOracle, to4: To4Oracle)
    requires n < |lines|
    ensures ConsumedBytes(lines[..n + 1]) == ConsumedBytes(lines[..n]) + |lines[n]| + 1
    ensures ParsedKeys(lines[..n + 1], parse, to4) ==
      ParsedKeys(lines[..n], parse, to4) + KeySet(LineKey(lines[n], parse, to4))
  {
    assert lines[..n + 1][..n] == lines[..n];
  }

  /** The body of the loop for one line: parse it and set its key, if any. */
  method ScanLine(line: Line, parse: ParseOracle, to4: To4Oracle, bitset: BitSet)
    requires bitset.Valid()
    modifies bitset.data
    ensures bitset.Valid()
    ensures bitset.Elements() == old(bitset.Elements()) + KeySet(LineKey(line, parse, to4))
  {
    var ip := parse(line);
    if ip.Some? {
      var val := IpToUint32(ip.value, to4);
      if val.Success? {
        bitset.Set(val.value);
      }
    }
  }

  /**
   * The progress bookkeeping after `n` lines: `processed` counts their bytes,
   * `lastPrinted` is the latest report (0 before the first) and lies within
   * the interval of `processed`, and the reports are spaced, taken at line
   * ends and never more than the interval behind any line end.
   */
  ghost predicate Progress(lines: seq<Line>, n: nat, processed: int, lastPrinted: int, ticks: seq<int>)
  {
    n <= |lines| &&
    processed == ConsumedBytes(lines[..n]) &&
    lastPrinted == (if ticks == [] then 0 else ticks[|ticks| - 1]) &&
    0 <= lastPrinted <= processed && processed - lastPrinted <= ProgressInterval &&
    Spaced(ticks) && AtLineEnds(ticks, lines, n) && NeverBehind(ticks, lines, n)
  }

  /** One iteration of the scan loop, on line `n`. */
  method ScanStep(lines: seq<Line>, n: nat, parse: ParseOracle, to4: To4Oracle, bitset: BitSet,
                  processed: int, lastPrinted: int, ticks: seq<int>)
    returns (processed': int, lastPrinted': int, ticks': seq<int>)
    requires n < |lines| && bitset.Valid()
    requires Progress(lines, n, processed, lastPrinted, ticks)
    modifies bitset.data
    ensures bitset.Valid()
    ensures bitset.Elements() == old(bitset.Elements()) + KeySet(LineKey(lines[n], parse, to4))
    ensures Progress(lines, n + 1, processed', lastPrinted', ticks')
  {
    PrefixStep(lines, n, parse, to4);
    processed' := processed + |lines[n]| + 1;
    ScanLine(lines[n], parse, to4, bitset);
    lastPrinted', ticks' := ReportIfDue(lines, n, processed', lastPrinted, ticks);
  }

  /**
   * The scan loop: every line is scanned and checked for a due report.
   * `ticks` lists the byte counts reported inside the loop.
   */
  method ScanLines(lines: seq<Line>, parse: ParseOracle, to4: To4Oracle, bitset: BitSet)
    returns (processed: int, lastPrinted: int, ticks: seq<int>)
    requires bitset.Valid()
    modifies bitset.data
    ensures bitset.Valid()
    ensures bitset.Elements() == old(bitset.Elements()) + ParsedKeys(lines, parse, to4)
    ensures Progress(lines, |lines|, processed, lastPrinted, ticks)
  {
    processed, lastPrinted := 0, 0;
    ticks := [];
    var n := 0;
    while n < |lines|
      invariant 0 <= n <= |lines|
      invariant bitset.Valid()
      invariant bitset.Elements() == old(bitset.Elements()) + ParsedKeys(lines[..n], parse, to4)
      invariant Progress(lines, n, processed, lastPrinted, ticks)
      decreases |lines| - n
    {
      PrefixStep(lines, n, parse, to4);
      processed, lastPrinted, ticks := ScanStep(lines, n, parse, to4, bitset, processed, lastPrinted, ticks);
      n := n + 1;
    }
    assert lines[..n] == lines;
  }

  /**
   * The scan loop and the final report. `reports` lists, in order, the byte
   * counts passed to `printProgress` as `current`; the last is `totalSize`. `processed` and
   * `lastPrinted` are the loop's two counters when the input is exhausted.
   */
  method ProcessLines(lines: seq<Line>, parse: ParseOracle, to4: To4Oracle, totalSize: int,
                      bitset: BitSet)
    returns (processed: int, lastPrinted: int, reports: seq<int>)
    requires bitset.Valid()
    modifies bitset.data
    ensures bitset.Valid()
    ensures bitset.Elements() == old(bitset.Elements()) + ParsedKeys(lines, parse, to4)
    ensures processed == ConsumedBytes(lines)
    ensures |reports| >= 1 && reports[|reports| - 1] == totalSize
    ensures Spaced(reports[..|reports| - 1])
    ensures AtLineEnds(reports[..|reports| - 1], lines, |lines|)
    ensures NeverBehind(reports[..|reports| - 1], lines, |lines|)
    ensures lastPrinted == LastTick(reports[..|reports| - 1], processed)
    ensures 0 <= lastPrinted <= processed && processed - lastPrinted <= ProgressInterval
  {
    var ticks;
    processed, lastPrinted, ticks := ScanLines(lines, parse, to4, bitset);
    FinalProgress(lines, processed, lastPrinted, ticks);
    reports := ticks + [totalSize];
    assert reports[..|reports| - 1] == ticks;
  }

  /**
   * The check after each line: report the processed byte count when more
   * than the interval has passed since the last report. `lines` and `n`
   * only name the line end reached, for the contract.
   */
  method ReportIfDue(ghost lines: seq<Line>, ghost n: nat, processed: int, lastPrinted: int, ticks: seq<int>)
    returns (lastPrinted': int, ticks': seq<int>)
    requires n < |lines| && processed == ConsumedBytes(lines[..n + 1])
    requires Progress(lines, n, ConsumedBytes(lines[..n]), lastPrinted, ticks)
    ensures Progress(lines, n + 1, processed, lastPrinted', ticks')
    ensures processed - lastPrinted > ProgressInterval ==> ticks' == ticks + [processed]
    ensures processed - lastPrinted <= ProgressInterval ==> ticks' == ticks && lastPrinted' == lastPrinted
  {
    if processed - lastPrinted > ProgressInterval {
      TickStep(lines, n, lastPrinted, ticks);
      ticks' := ticks + [processed];
      lastPrinted' := processed;
    } else {
      QuietStep(lines, n, lastPrinted, ticks);
      ticks', lastPrinted' := ticks, lastPrinted;
    }
  }

  /** A report at the new line end, more than the interval after the last one. */
  lemma {:induction false} TickStep(lines: seq<Line>, n: nat, lastPrinted: int, ticks: seq<int>)
    requires n < |lines| && Progress(lines, n, ConsumedBytes(lines[..n]), lastPrinted, ticks)
    requires ConsumedBytes(lines[..n + 1]) - lastPrinted > ProgressInterval
    ensures var t := ConsumedBytes(lines[..n + 1]);
      Progress(lines, n + 1, t, t, ticks + [t])
  {
    var t := ConsumedBytes(lines[..n + 1]);
    var ticks' := ticks + [t];
    SpacedStep(ticks, t);
    assert ticks'[..|ticks'| - 1] == ticks;
    forall i | 0 <= i <= n + 1
      ensures ConsumedBytes(lines[..i]) - LastTick(ticks', ConsumedBytes(lines[..i])) <= ProgressInterval
    {
      if i <= n {
        ConsumedBytesGrows(lines, i, n + 1);
      }
    }
    forall j | 0 <= j < |ticks'|
      ensures exists i :: 0 < i <= n + 1 && ticks'[j] == ConsumedBytes(lines[..i])
    {
      if j == |ticks| {
        assert ticks'[j] == ConsumedBytes(lines[..n + 1]);
      } else {
        assert ticks'[j] == ticks[j];
      }
    }
  }

  /** No report: the last one stays within the interval of the new line end. */
  lemma {:induction false} QuietStep(lines: seq<Line>, n: nat, lastPrinted: int, ticks: seq<int>)
    requires n < |lines| && Progress(lines, n, ConsumedBytes(lines[..n]), lastPrinted, ticks)
    requires ConsumedBytes(lines[..n + 1]) - lastPrinted <= ProgressInterval
    ensures Progress(lines, n + 1, ConsumedBytes(lines[..n + 1]), lastPrinted, ticks)
  {
    ConsumedBytesGrows(lines, n, n + 1);
    assert LastTick(ticks, ConsumedBytes(lines[..n + 1])) == lastPrinted;
  }

  /** Once every line is scanned, the bookkeeping speaks of the whole input. */
  lemma {:induction false} FinalProgress(lines: seq<Line>, processed: int, lastPrinted: int, ticks: seq<int>)
    requires Progress(lines, |lines|, processed, lastPrinted, ticks)
    ensures processed == ConsumedBytes(lines)
    ensures Spaced(ticks) && AtLineEnds(ticks, lines, |lines|) && NeverBehind(ticks, lines, |lines|)
    ensures lastPrinted == LastTick(ticks, processed)
    ensures 0 <= lastPrinted <= processed && processed - lastPrinted <= ProgressInterval
  {
    assert lines[..|lines|] == lines;
  }

  /** `NewBitSet`, the scan, then `Count`: the number of distinct keys parsed. */
  method CountDistinct(lines: seq<Line>, parse: ParseOracle, to4: To4Oracle, totalSize: int)
    returns (count: Uint64)
    ensures count == |ParsedKeys(lines, parse, to4)|
  {
    var bitset := new BitSet();
    var _, _, _ := ProcessLines(lines, parse, to4, totalSize, bitset);
    count := bitset.Count();
  }

  /** Six lines whose keys are `ka`, `ka`, `kb`, none, none, `ke` yield `{ka, kb, ke}`. */
  lemma {:induction false} SixLines(a: Line, b: Line, c: Line, d: Line, e: Line,
                                    parse: ParseOracle, to4: To4Oracle, ka: Key, kb: Key, ke: Key)
    requires LineKey(a, parse, to4) == Some(ka) && LineKey(b, parse, to4) == Some(kb)
    requires LineKey(c, parse, to4).None? && LineKey(d, parse, to4).None?
    requires LineKey(e, parse, to4) == Some(ke)
    ensures ParsedKeys([a, a, b, c, d, e], parse, to4) == {ka, kb, ke}
  {
    var ls := [a, a, b, c, d, e];
    assert ls[..0] == [];
    PrefixStep(ls, 0, parse, to4);
    PrefixStep(ls, 1, parse, to4);
    PrefixStep(ls, 2, parse, to4);
    PrefixStep(ls, 3, parse, to4);
    PrefixStep(ls, 4, parse, to4);
    PrefixStep(ls, 5, parse, to4);
    assert ls[..6] == ls;
  }

  /**
   * The worked example `10.0.0.1`, `10.0.0.1`, `10.0.0.2`, a line that is
   * not an address, an empty line, `255.255.255.255`: three distinct keys,
   * for any parser that reads the three addresses as their octets and
   * rejects the other two lines.
   */
  lemma {:induction false} ExampleCount(a: Line, b: Line, c: Line, d: Line, e: Line,
                                        parse: ParseOracle, to4: To4Oracle)
    requires parse(a).Some? && to4(parse(a).value) == Some([10, 0, 0, 1])
    requires parse(b).Some? && to4(parse(b).value) == Some([10, 0, 0, 2])
    requires parse(c).None? && parse(d).None?
    requires parse(e).Some? && to4(parse(e).value) == Some([255, 255, 255, 255])
    ensures ParsedKeys([a, a, b, c, d, e], parse, to4) == {0x0A00_0001, 0x0A00_0002, 0xFFFF_FFFF}
    ensures |ParsedKeys([a, a, b, c, d, e], parse, to4)| == 3
  {
    assert LineKey(a, parse, to4) == Some(0x0A00_0001);
    assert LineKey(b, parse, to4) == Some(0x0A00_0002);
    assert LineKey(e, parse, to4) == Some(0xFFFF_FFFF);
    SixLines(a, b, c, d, e, parse, to4, 0x0A00_0001, 0x0A00_0002, 0xFFFF_FFFF);
  }

  /**
   * The final report need not be the largest. A last line without a
   * terminator still counts one terminator byte, so the processed count can
   * pass the file size: a file that is one unterminated line of exactly
   * 10 MiB reports 10 MiB + 1 inside the loop, then the file size, 10 MiB.
   */
  method FinalReportCanDecrease() returns (reports: seq<int>)
    ensures reports == [ProgressInterval + 1, ProgressInterval]
    ensures reports[1] < reports[0]
  {
    var line: Line := seq(ProgressInterval, _ => 0);
    var lines := [line];
    var bitset := new BitSet();
    var processed, lastPrinted;
    processed, lastPrinted, reports := ProcessLines(lines, _ => None, _ => None, ProgressInterval, bitset);
    OneLineReports(lines, processed, lastPrinted, reports[..|reports| - 1]);
  }

  /** With one line of 10 MiB, the only report the loop can make is at its end. */
  lemma {:induction false} OneLineReports(lines: seq<Line>, processed: int, lastPrinted: int, ticks: seq<int>)
    requires |lines| == 1 && |lines[0]| == ProgressInterval
    requires processed == ConsumedBytes(lines)
    requires Spaced(ticks) && AtLineEnds(ticks, lines, 1)
    requires lastPrinted == LastTick(ticks, processed)
    requires processed - lastPrinted <= ProgressInterval
    ensures ticks == [ProgressInterval + 1]
  {
    assert lines[..0] == [] && lines[..1] == lines;
    assert processed == ProgressInterval + 1;
    forall j | 0 <= j < |ticks|
      ensures ticks[j] == ProgressInterval + 1
    {
      var i :| 0 < i <= 1 && ticks[j] == ConsumedBytes(lines[..i]);
    }
  }
}
