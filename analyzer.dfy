/**
 * The `LogAnalyzer` object and the analysis command: the scan, the rendering
 * loop and the chunked delivery, each proved equal to its specification in
 * modules Scan, Report and Delivery.
 */
module Analyzer {
  import opened Wrappers
  import opened PyText
  import opened Filters
  import opened Scan
  import opened Report
  import opened Delivery

  class LogAnalyzer {
    /** The active filters, selected once when the analyzer is created. */
    var filters: seq<FilterRule>
    /** The log file to analyse; replaced when a new file is uploaded. */
    var logFile: string
    /** The size of the trailing window, as configured. */
    var maxLines: int

    constructor (config: Config)
      ensures filters == ActiveFilters(config.filters)
      ensures logFile == config.logFile && maxLines == config.maxLines
    {
      filters := ActiveFilters(config.filters);
      logFile := config.logFile;
      maxLines := config.maxLines;
    }

    /**
     * Reads the log, keeps its trailing window and files every line under the
     * first active filter whose pattern matches it; `None` when the file cannot
     * be read or a pattern fails to compile.
     */
    method AnalyzeLogs(fs: FileSystem, re: RegexEngine) returns (results: Option<Results>)
      ensures results == Analyze(filters, ReadLines(fs, logFile), maxLines, re)
    {
      var keys := Keys(filters);
      var buckets: map<string, seq<string>> := map k | k in keys :: [];
      if logFile !in fs {
        return None;
      }
      var lines := SuffixSlice(fs[logFile], maxLines);
      var i := 0;
      while i < |lines|
        invariant 0 <= i <= |lines|
        invariant !ScanFails(filters, lines[..i], re)
        invariant forall k :: k in keys ==> k in buckets && buckets[k] == Collect(filters, lines[..i], re, k)
      {
        var line := lines[i];
        ghost var before := buckets;
        var j := 0;
        while j < |filters|
          invariant 0 <= j <= |filters|
          invariant forall t :: 0 <= t < j ==> Rejects(re, filters[t], line)
          invariant buckets == before
        {
          var f := filters[j];
          if !re.compiles(f.pattern) {
            // re.search raises; the exception handler returns None
            assert ScanFails(filters, lines, re) by {
              PatternErrorAt(filters, line, re, j);
              assert lines[i] == line;
            }
            return None;
          }
          if re.search(f.pattern, line) {
            assert f.name in keys;
            buckets := buckets[f.name := buckets[f.name] + [Strip(line)]];
            assert !FirstMatch(filters, line, re).PatternError?
              && forall k :: k in keys ==> k in buckets && buckets[k] == before[k] + Recorded(filters, line, re, k)
            by {
              FirstMatchAt(filters, line, re, j);
            }
            break;
          }
          j := j + 1;
        }
        if j == |filters| {
          assert !FirstMatch(filters, line, re).PatternError?
            && forall k :: k in keys ==> k in buckets && buckets[k] == before[k] + Recorded(filters, line, re, k)
          by {
            NoMatchDiscarded(filters, line, re);
          }
        }
        assert !ScanFails(filters, lines[..i + 1], re) by {
          NoFailureStep(filters, lines, i, re);
        }
        assert forall k :: k in keys ==> k in buckets && buckets[k] == Collect(filters, lines[..i + 1], re, k) by {
          ScanStep(filters, lines, i, re, keys, before, buckets);
        }
        i := i + 1;
      }
      assert lines[..i] == lines;
      assert !ScanFails(filters, lines, re);
      BucketsFromMap(filters, lines, re, keys, buckets);
      results := Some(seq(|keys|, k requires 0 <= k < |keys| => Bucket(keys[k], buckets[keys[k]])));
    }

    /** Renders a result: the sentinels for the failed and the empty case, else the blocks joined with newlines. */
    method FormatResults(results: Option<Results>) returns (text: string)
      ensures text == Format(results)
    {
      if results.None? || results.value == [] {
        return FailedText;
      }
      var rs := results.value;
      var message: seq<string> := [];
      for i := 0 to |rs|
        invariant message == Message(rs[..i])
      {
        var b := rs[i];
        if b.lines != [] {
          message := message + [Header(b)];
          message := message + SuffixSlice(b.lines, MaxShown);
          message := message + [""];
        }
        assert rs[..i + 1][..i] == rs[..i];
      }
      assert rs[..|rs|] == rs;
      text := if message == [] then NotFoundText else Join("\n", message);
    }

    /** The `/logs` command: analyse, render, and cut the text into transport-sized messages. */
    method SendLogs(fs: FileSystem, re: RegexEngine) returns (messages: seq<string>)
      ensures messages == Deliver(Format(Analyze(filters, ReadLines(fs, logFile), maxLines, re)))
      ensures Concat(messages) == Format(Analyze(filters, ReadLines(fs, logFile), maxLines, re))
      ensures forall k :: 0 <= k < |messages| ==> |messages[k]| <= ChunkSize
    {
      var results := AnalyzeLogs(fs, re);
      var formatted := FormatResults(results);
      if |formatted| > ChunkSize {
        messages := Chunks(formatted);
      } else {
        messages := [formatted];
      }
      DeliverSpec(formatted);
    }
  }
}
