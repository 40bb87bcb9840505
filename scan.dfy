/**
 * The specification of one analysis run (`LogAnalyzer.analyze_logs`): the
 * trailing window of the log, first-match-wins categorisation of every line
 * and the failure cases. The imperative scan in module Analyzer is proved
 * equal to `Analyze`; the lemmas here state what `Analyze` guarantees.
 */
module Scan {
  import opened Wrappers
  import opened PyText
  import opened Filters

  /**
   * The regular-expression engine, left abstract. `compiles(p)` says that `p`
   * is a pattern the engine accepts; `search(p, line)` says that a
   * case-insensitive search for `p` finds a match somewhere in `line`.
   */
  datatype RegexEngine = RegexEngine(compiles: string -> bool, search: (string, string) -> bool)

  /**
   * The files the analyzer can open: a path maps to the file's lines as
   * `readlines()` returns them (line terminators kept). A path that is absent
   * stands for a file that cannot be opened or decoded.
   */
  type FileSystem = map<string, seq<string>>

  function ReadLines(fs: FileSystem, path: string): Option<seq<string>> {
    if path in fs then Some(fs[path]) else None
  }

  /** One entry of the result dictionary: a filter name and the lines recorded under it. */
  datatype Bucket = Bucket(name: string, lines: seq<string>)

  /** The result dictionary, its entries in insertion order. */
  type Results = seq<Bucket>

  /**
   * The outcome of testing one line against the active filters in order: the
   * index of the first filter that matches, no match at all, or the index of a
   * pattern that failed to compile when its turn came (and raised).
   */
  datatype Probe = Hit(index: nat) | Miss | PatternError(index: nat)

  /** The filter was tried on the line and did not match. */
  predicate Rejects(re: RegexEngine, f: FilterRule, line: string) {
    re.compiles(f.pattern) && !re.search(f.pattern, line)
  }

  function ProbeFrom(filters: seq<FilterRule>, line: string, re: RegexEngine, j: nat): (p: Probe)
    requires j <= |filters|
    ensures p.Hit? ==> j <= p.index < |filters| && re.compiles(filters[p.index].pattern) && re.search(filters[p.index].pattern, line)
    ensures p.PatternError? ==> j <= p.index < |filters| && !re.compiles(filters[p.index].pattern)
    ensures p.Miss? ==> forall t :: j <= t < |filters| ==> Rejects(re, filters[t], line)
    ensures !p.Miss? ==> forall t :: j <= t < p.index ==> Rejects(re, filters[t], line)
    decreases |filters| - j
  {
    if j == |filters| then Miss
    else if !re.compiles(filters[j].pattern) then PatternError(j)
    else if re.search(filters[j].pattern, line) then Hit(j)
    else ProbeFrom(filters, line, re, j + 1)
  }

  /** The filters are tried in order and the first that matches wins. */
  function FirstMatch(filters: seq<FilterRule>, line: string, re: RegexEngine): (p: Probe)
    ensures p.Hit? ==> p.index < |filters| && re.compiles(filters[p.index].pattern) && re.search(filters[p.index].pattern, line)
    ensures p.PatternError? ==> p.index < |filters| && !re.compiles(filters[p.index].pattern)
    ensures p.Miss? ==> forall t :: 0 <= t < |filters| ==> Rejects(re, filters[t], line)
    ensures !p.Miss? ==> forall t :: 0 <= t < p.index ==> Rejects(re, filters[t], line)
  {
    ProbeFrom(filters, line, re, 0)
  }

  /** The line is stored under `name`: the first filter that matches it carries that name. */
  predicate RecordedUnder(filters: seq<FilterRule>, line: string, re: RegexEngine, name: string) {
    var p := FirstMatch(filters, line, re);
    p.Hit? && filters[p.index].name == name
  }

  /** What one line contributes to the bucket `name`. */
  function Recorded(filters: seq<FilterRule>, line: string, re: RegexEngine, name: string): seq<string> {
    if RecordedUnder(filters, line, re, name) then [Strip(line)] else []
  }

  /** The stripped lines of `window`, in window order, that are recorded under `name`. */
  function Collect(filters: seq<FilterRule>, window: seq<string>, re: RegexEngine, name: string): seq<string> {
    FlatMap(line => Recorded(filters, line, re, name), window)
  }

  /** Some line of the window reaches a pattern that does not compile: the scan raises. */
  predicate ScanFails(filters: seq<FilterRule>, window: seq<string>, re: RegexEngine) {
    exists t :: 0 <= t < |window| && FirstMatch(filters, window[t], re).PatternError?
  }

  predicate Distinct(s: seq<string>) {
    forall a, b :: 0 <= a < b < |s| ==> s[a] != s[b]
  }

  predicate NamesDistinct(filters: seq<FilterRule>) {
    forall a, b :: 0 <= a < b < |filters| ==> filters[a].name != filters[b].name
  }

  /**
   * The keys of `{f['name']: [] for f in filters}`: every filter name once, in
   * the order of its first occurrence.
   */
  function Keys(filters: seq<FilterRule>): (ks: seq<string>)
    ensures Distinct(ks)
    ensures forall n :: n in ks <==> exists j :: 0 <= j < |filters| && filters[j].name == n
    decreases |filters|
  {
    if filters == [] then []
    else
      var init := filters[..|filters| - 1];
      var ks := Keys(init);
      var n := filters[|filters| - 1].name;
      assert forall j :: 0 <= j < |init| ==> init[j] == filters[j];
      if n in ks then ks else ks + [n]
  }

  /** Name `x` occurs among the filters at a position up to which `y` does not occur. */
  predicate OccursBefore(filters: seq<FilterRule>, x: string, y: string) {
    exists j :: 0 <= j < |filters| && filters[j].name == x && forall t :: 0 <= t <= j ==> filters[t].name != y
  }

  /** Keys come in order of first occurrence: each key's first occurrence precedes the next key's. */
  lemma {:induction false} KeysFirstOccurrence(filters: seq<FilterRule>)
    ensures forall a, b :: 0 <= a < b < |Keys(filters)| ==> OccursBefore(filters, Keys(filters)[a], Keys(filters)[b])
    decreases |filters|
  {
    if filters != [] {
      var init := filters[..|filters| - 1];
      var ks0 := Keys(init);
      var ks := Keys(filters);
      KeysFirstOccurrence(init);
      assert forall j :: 0 <= j < |init| ==> init[j] == filters[j];
      var n := filters[|filters| - 1].name;
      assert ks == if n in ks0 then ks0 else ks0 + [n];
      forall a, b | 0 <= a < b < |ks| ensures OccursBefore(filters, ks[a], ks[b]) {
        if b < |ks0| {
          assert ks[a] == ks0[a] && ks[b] == ks0[b];
          assert OccursBefore(init, ks0[a], ks0[b]);
          var j :| 0 <= j < |init| && init[j].name == ks0[a] && forall t :: 0 <= t <= j ==> init[t].name != ks0[b];
          assert filters[j].name == ks[a];
        } else {
          assert ks[a] == ks0[a] && ks[b] !in ks0;
          assert ks0[a] in ks0;
          var j :| 0 <= j < |init| && init[j].name == ks0[a];
          assert filters[j].name == ks[a];
        }
      }
    }
  }

  /** With distinct names the keys are exactly the filter names, in filter order. */
  lemma {:induction false} KeysOfDistinctNames(filters: seq<FilterRule>)
    requires NamesDistinct(filters)
    ensures |Keys(filters)| == |filters|
    ensures forall j :: 0 <= j < |filters| ==> Keys(filters)[j] == filters[j].name
    decreases |filters|
  {
    if filters != [] {
      var init := filters[..|filters| - 1];
      assert NamesDistinct(init) by {
        assert forall j :: 0 <= j < |init| ==> init[j] == filters[j];
      }
      KeysOfDistinctNames(init);
      var n := filters[|filters| - 1].name;
      assert n !in Keys(init);
    }
  }

  /** With the default configuration the result has an errors and a warnings entry and no authorisation entry. */
  lemma DefaultResultKeys()
    ensures Keys(ActiveFilters(DefaultConfig.filters)) == [DefaultConfig.filters[0].name, DefaultConfig.filters[1].name]
    ensures DefaultConfig.filters[2].name !in Keys(ActiveFilters(DefaultConfig.filters))
  {
    DefaultActiveFilters();
    var active := ActiveFilters(DefaultConfig.filters);
    assert NamesDistinct(active);
    KeysOfDistinctNames(active);
  }

  /** The buckets for the keys `ks`, each holding what the window records under it. */
  function BucketsFor(filters: seq<FilterRule>, window: seq<string>, re: RegexEngine, ks: seq<string>): Results {
    seq(|ks|, k requires 0 <= k < |ks| => Bucket(ks[k], Collect(filters, window, re, ks[k])))
  }

  /**
   * `analyze_logs` as a function: `None` when the file cannot be read or the
   * scan raises; otherwise one bucket per key, filled from the trailing
   * `maxLines` lines of the file.
   */
  function Analyze(filters: seq<FilterRule>, file: Option<seq<string>>, maxLines: int, re: RegexEngine): Option<Results> {
    match file
    case None => None
    case Some(lines) =>
      var window := SuffixSlice(lines, maxLines);
      if ScanFails(filters, window, re) then None
      else Some(BucketsFor(filters, window, re, Keys(filters)))
  }

  // ---------------------------------------------------------------------------
  // First-match-wins

  /** A line goes to the lowest-index filter that matches it, and to no other bucket. */
  lemma FirstMatchAt(filters: seq<FilterRule>, line: string, re: RegexEngine, p: nat)
    requires p < |filters| && re.compiles(filters[p].pattern) && re.search(filters[p].pattern, line)
    requires forall t :: 0 <= t < p ==> Rejects(re, filters[t], line)
    ensures FirstMatch(filters, line, re) == Hit(p)
    ensures forall name :: Recorded(filters, line, re, name) == if name == filters[p].name then [Strip(line)] else []
  {
  }

  /** A line that no filter matches is recorded nowhere. */
  lemma NoMatchDiscarded(filters: seq<FilterRule>, line: string, re: RegexEngine)
    requires forall t :: 0 <= t < |filters| ==> Rejects(re, filters[t], line)
    ensures FirstMatch(filters, line, re) == Miss
    ensures forall name :: Recorded(filters, line, re, name) == []
  {
  }

  /** A pattern that does not compile raises exactly when a line reaches it unmatched. */
  lemma PatternErrorAt(filters: seq<FilterRule>, line: string, re: RegexEngine, p: nat)
    requires p < |filters| && !re.compiles(filters[p].pattern)
    requires forall t :: 0 <= t < p ==> Rejects(re, filters[t], line)
    ensures FirstMatch(filters, line, re) == PatternError(p)
  {
  }

  /**
   * When filters `i < j` both match a line and filter `i`'s pattern compiles, the
   * line is not recorded under the later filter's name (names distinct): either an
   * earlier filter takes it, or the scan stops at a bad pattern before `j`.
   */
  lemma EarlierFilterWins(filters: seq<FilterRule>, line: string, re: RegexEngine, i: nat, j: nat)
    requires i < j < |filters| && NamesDistinct(filters)
    requires re.compiles(filters[i].pattern)
    requires re.search(filters[i].pattern, line) && re.search(filters[j].pattern, line)
    ensures !RecordedUnder(filters, line, re, filters[j].name)
    ensures Recorded(filters, line, re, filters[j].name) == []
  {
  }

  // ---------------------------------------------------------------------------
  // Buckets keep window order and hold exactly the recorded lines

  /** Scanning `a` then `b` fills each bucket with `a`'s lines followed by `b`'s. */
  lemma CollectAppend(filters: seq<FilterRule>, a: seq<string>, b: seq<string>, re: RegexEngine, name: string)
    ensures Collect(filters, a + b, re, name) == Collect(filters, a, re, name) + Collect(filters, b, re, name)
  {
    FlatMapAppend(line => Recorded(filters, line, re, name), a, b);
  }

  /**
   * Membership in both directions: a string is in bucket `name` exactly when it is
   * the stripped form of a window line recorded under `name`.
   */
  lemma CollectMembers(filters: seq<FilterRule>, window: seq<string>, re: RegexEngine, name: string)
    ensures forall s :: s in Collect(filters, window, re, name) <==>
      exists t :: 0 <= t < |window| && RecordedUnder(filters, window[t], re, name) && s == Strip(window[t])
  {
    forall s ensures s in Collect(filters, window, re, name) <==>
      exists t :: 0 <= t < |window| && RecordedUnder(filters, window[t], re, name) && s == Strip(window[t])
    {
      FlatMapMembers(line => Recorded(filters, line, re, name), window, s);
    }
  }

  /** Scanning one more line adds to each bucket what that line contributes to it. */
  lemma ScanStep(filters: seq<FilterRule>, lines: seq<string>, i: nat, re: RegexEngine,
                 keys: seq<string>, before: map<string, seq<string>>, after: map<string, seq<string>>)
    requires i < |lines|
    requires forall k :: k in keys ==> k in before && before[k] == Collect(filters, lines[..i], re, k)
    requires forall k :: k in keys ==> k in after && after[k] == before[k] + Recorded(filters, lines[i], re, k)
    ensures forall k :: k in keys ==> k in after && after[k] == Collect(filters, lines[..i + 1], re, k)
  {
    assert lines[..i + 1][..i] == lines[..i];
  }

  lemma NoFailureStep(filters: seq<FilterRule>, lines: seq<string>, i: nat, re: RegexEngine)
    requires i < |lines|
    requires !ScanFails(filters, lines[..i], re)
    requires !FirstMatch(filters, lines[i], re).PatternError?
    ensures !ScanFails(filters, lines[..i + 1], re)
  {
    var w := lines[..i + 1];
    forall t | 0 <= t < |w| ensures !FirstMatch(filters, w[t], re).PatternError? {
      if t < i {
        assert w[t] == lines[..i][t];
      }
    }
  }

  /** The buckets kept in a dictionary, read out in key order, are the specified ones. */
  lemma BucketsFromMap(filters: seq<FilterRule>, window: seq<string>, re: RegexEngine,
                       keys: seq<string>, buckets: map<string, seq<string>>)
    requires forall k :: k in keys ==> k in buckets && buckets[k] == Collect(filters, window, re, k)
    ensures seq(|keys|, k requires 0 <= k < |keys| => Bucket(keys[k], buckets[keys[k]])) == BucketsFor(filters, window, re, keys)
  {
  }

  /** A bucket never holds more lines than the window has. */
  lemma CollectBound(filters: seq<FilterRule>, window: seq<string>, re: RegexEngine, name: string)
    ensures |Collect(filters, window, re, name)| <= |window|
  {
    FlatMapBound(line => Recorded(filters, line, re, name), window);
  }

  // ---------------------------------------------------------------------------
  // Every matched line is counted once

  function TotalLines(rs: Results): nat {
    if rs == [] then 0 else |rs[0].lines| + TotalLines(rs[1..])
  }

  /** The number of window lines that some filter matches. */
  function HitCount(filters: seq<FilterRule>, window: seq<string>, re: RegexEngine): (n: nat)
    ensures n <= |window|
    decreases |window|
  {
    if window == [] then 0
    else HitCount(filters, window[..|window| - 1], re) + (if FirstMatch(filters, window[|window| - 1], re).Hit? then 1 else 0)
  }

  function SumCollect(filters: seq<FilterRule>, window: seq<string>, re: RegexEngine, ks: seq<string>): nat {
    if ks == [] then 0 else |Collect(filters, window, re, ks[0])| + SumCollect(filters, window, re, ks[1..])
  }

  function SumRecorded(filters: seq<FilterRule>, line: string, re: RegexEngine, ks: seq<string>): nat {
    if ks == [] then 0 else |Recorded(filters, line, re, ks[0])| + SumRecorded(filters, line, re, ks[1..])
  }

  lemma {:induction false} BucketsTotal(filters: seq<FilterRule>, window: seq<string>, re: RegexEngine, ks: seq<string>)
    ensures TotalLines(BucketsFor(filters, window, re, ks)) == SumCollect(filters, window, re, ks)
    decreases |ks|
  {
    if ks != [] {
      assert BucketsFor(filters, window, re, ks)[1..] == BucketsFor(filters, window, re, ks[1..]);
      BucketsTotal(filters, window, re, ks[1..]);
    }
  }

  lemma {:induction false} SumCollectStep(filters: seq<FilterRule>, window: seq<string>, line: string, re: RegexEngine, ks: seq<string>)
    ensures SumCollect(filters, window + [line], re, ks) == SumCollect(filters, window, re, ks) + SumRecorded(filters, line, re, ks)
    decreases |ks|
  {
    if ks != [] {
      var w := window + [line];
      assert w[..|w| - 1] == window;
      SumCollectStep(filters, window, line, re, ks[1..]);
    }
  }

  /** Over distinct keys, a line is recorded in one bucket when some filter matches it and in none otherwise. */
  lemma {:induction false} SumRecordedOnce(filters: seq<FilterRule>, line: string, re: RegexEngine, ks: seq<string>)
    requires Distinct(ks)
    ensures SumRecorded(filters, line, re, ks) ==
      var p := FirstMatch(filters, line, re);
      if p.Hit? && filters[p.index].name in ks then 1 else 0
    decreases |ks|
  {
    if ks != [] {
      assert Distinct(ks[1..]) by {
        forall a, b | 0 <= a < b < |ks[1..]| ensures ks[1..][a] != ks[1..][b] {
          assert ks[1..][a] == ks[a + 1] && ks[1..][b] == ks[b + 1];
        }
      }
      SumRecordedOnce(filters, line, re, ks[1..]);
      var p := FirstMatch(filters, line, re);
      if p.Hit? && filters[p.index].name == ks[0] {
        assert ks[0] !in ks[1..];
      }
    }
  }

  lemma {:induction false} SumCollectNil(filters: seq<FilterRule>, re: RegexEngine, ks: seq<string>)
    ensures SumCollect(filters, [], re, ks) == 0
    decreases |ks|
  {
    if ks != [] {
      SumCollectNil(filters, re, ks[1..]);
    }
  }

  lemma {:induction false} SumCollectHits(filters: seq<FilterRule>, window: seq<string>, re: RegexEngine)
    ensures SumCollect(filters, window, re, Keys(filters)) == HitCount(filters, window, re)
    decreases |window|
  {
    if window != [] {
      var init, line := window[..|window| - 1], window[|window| - 1];
      assert window == init + [line];
      SumCollectHits(filters, init, re);
      SumCollectStep(filters, init, line, re, Keys(filters));
      SumRecordedOnce(filters, line, re, Keys(filters));
      var p := FirstMatch(filters, line, re);
      if p.Hit? {
        assert filters[p.index].name in Keys(filters);
      }
      assert HitCount(filters, window, re) == HitCount(filters, init, re) + (if p.Hit? then 1 else 0);
      assert SumRecorded(filters, line, re, Keys(filters)) == (if p.Hit? then 1 else 0);
    } else {
      SumCollectNil(filters, re, Keys(filters));
    }
  }

  // ---------------------------------------------------------------------------
  // What Analyze returns

  /**
   * The failure cases: no result exactly when the file cannot be read or some
   * line of the window reaches a pattern that fails to compile.
   */
  lemma AnalyzeFails(filters: seq<FilterRule>, file: Option<seq<string>>, maxLines: int, re: RegexEngine)
    ensures Analyze(filters, file, maxLines, re).None? <==>
      || file.None?
      || exists t :: 0 <= t < |SuffixSlice(file.value, maxLines)| && FirstMatch(filters, SuffixSlice(file.value, maxLines)[t], re).PatternError?
  {
  }

  /**
   * A successful result has one entry per distinct active filter name, in
   * first-occurrence order, and its buckets together hold one line for every
   * window line that some filter matched, so never more than the window holds.
   */
  lemma {:induction false} AnalyzeShape(filters: seq<FilterRule>, lines: seq<string>, maxLines: int, re: RegexEngine)
    requires Analyze(filters, Some(lines), maxLines, re).Some?
    ensures var rs := Analyze(filters, Some(lines), maxLines, re).value;
      && |rs| == |Keys(filters)|
      && (forall k :: 0 <= k < |rs| ==> rs[k].name == Keys(filters)[k])
      && TotalLines(rs) == HitCount(filters, SuffixSlice(lines, maxLines), re)
      && TotalLines(rs) <= |SuffixSlice(lines, maxLines)|
  {
    var window := SuffixSlice(lines, maxLines);
    BucketsTotal(filters, window, re, Keys(filters));
    SumCollectHits(filters, window, re);
  }

  /** Before any line is scanned every key holds an empty list. */
  lemma EmptyWindow(filters: seq<FilterRule>, lines: seq<string>, maxLines: int, re: RegexEngine)
    requires SuffixSlice(lines, maxLines) == []
    ensures Analyze(filters, Some(lines), maxLines, re).Some?
    ensures var rs := Analyze(filters, Some(lines), maxLines, re).value;
      && |rs| == |Keys(filters)|
      && forall k :: 0 <= k < |rs| ==> rs[k] == Bucket(Keys(filters)[k], [])
  {
    var window := SuffixSlice(lines, maxLines);
    var ks := Keys(filters);
    var rs := BucketsFor(filters, window, re, ks);
    assert !ScanFails(filters, window, re);
    assert Analyze(filters, Some(lines), maxLines, re) == Some(rs);
    forall k | 0 <= k < |rs| ensures rs[k] == Bucket(ks[k], []) {
      assert window == [];
      assert Collect(filters, [], re, ks[k]) == [];
    }
  }
}
