/**
 * Rendering of an analysis result (`LogAnalyzer.format_results`): one block per
 * non-empty bucket, in dictionary order, and two sentinel texts for the failed
 * and the empty case. The loop that builds the message lives in module
 * Analyzer and is proved equal to `Format`.
 */
module Report {
  import opened Wrappers
  import opened PyText
  import opened Scan

  /** Sent when the analysis failed or no filter is active. */
  const FailedText: string := "Не удалось проанализировать логи"

  /** Sent when there are active filters but none of them recorded a line. */
  const NotFoundText: string := "Записи не найдены"

  /** How many of the most recent lines a block shows. */
  const MaxShown: int := 20

  const HeaderMark: string := "📍 "

  /** The block header: the filter name and the full number of recorded lines. */
  function Header(b: Bucket): string {
    HeaderMark + b.name + " (" + NatToString(|b.lines|) + "):"
  }

  /** The rendered lines of one bucket: nothing for an empty bucket. */
  function Block(b: Bucket): seq<string> {
    if b.lines == [] then [] else [Header(b)] + SuffixSlice(b.lines, MaxShown) + [""]
  }

  /** The `message` list after all buckets have been rendered. */
  function Message(rs: Results): seq<string> {
    FlatMap(Block, rs)
  }

  predicate AllEmpty(rs: Results) {
    forall k :: 0 <= k < |rs| ==> rs[k].lines == []
  }

  /** `format_results` as a function. */
  function Format(results: Option<Results>): string {
    if results.None? || results.value == [] then FailedText
    else
      var message := Message(results.value);
      if message == [] then NotFoundText else Join("\n", message)
  }

  // ---------------------------------------------------------------------------
  // Blocks

  /**
   * A non-empty bucket renders as its header, then its last `min(20, n)` lines
   * oldest first, then an empty line; an empty bucket renders as nothing.
   */
  lemma BlockShape(b: Bucket)
    ensures b.lines == [] ==> Block(b) == []
    ensures b.lines != [] ==>
      var n := |b.lines|;
      var shown := Min(MaxShown, n);
      && |Block(b)| == shown + 2
      && Block(b)[0] == Header(b)
      && Block(b)[1..shown + 1] == b.lines[n - shown..]
      && Block(b)[shown + 1] == ""
  {
    if b.lines != [] {
      var n := |b.lines|;
      var shown := Min(MaxShown, n);
      assert Block(b)[1..shown + 1] == SuffixSlice(b.lines, MaxShown);
    }
  }

  /** The count in the header reads back as the full number of recorded lines, not the shown ones. */
  lemma HeaderCount(b: Bucket)
    ensures var digits := NatToString(|b.lines|);
      && Header(b) == HeaderMark + b.name + " (" + digits + "):"
      && AllDigits(digits)
      && ParseNat(digits) == |b.lines|
  {
    ParseNatToString(|b.lines|);
  }

  // ---------------------------------------------------------------------------
  // The message

  /** Blocks appear in dictionary order: rendering a concatenation concatenates the renderings. */
  lemma MessageAppend(a: Results, b: Results)
    ensures Message(a + b) == Message(a) + Message(b)
  {
    FlatMapAppend(Block, a, b);
  }

  /** The message is empty exactly when every bucket is. */
  lemma {:induction false} MessageEmpty(rs: Results)
    ensures Message(rs) == [] <==> AllEmpty(rs)
    decreases |rs|
  {
    if rs != [] {
      var init := rs[..|rs| - 1];
      MessageEmpty(init);
      assert forall k :: 0 <= k < |init| ==> init[k] == rs[k];
    }
  }

  /** When some bucket is non-empty the message opens with the header of the first such bucket. */
  lemma {:induction false} MessageHead(rs: Results) returns (k: nat)
    requires !AllEmpty(rs)
    ensures k < |rs| && rs[k].lines != [] && (forall j :: 0 <= j < k ==> rs[j].lines == [])
    ensures Message(rs) != [] && Message(rs)[0] == Header(rs[k])
    decreases |rs|
  {
    var init := rs[..|rs| - 1];
    assert forall j :: 0 <= j < |init| ==> init[j] == rs[j];
    if AllEmpty(init) {
      MessageEmpty(init);
      k := |rs| - 1;
    } else {
      k := MessageHead(init);
    }
  }

  // ---------------------------------------------------------------------------
  // Format

  /** No result, or a result without keys (no active filter), renders as the failure text. */
  lemma FormatFailed(results: Option<Results>)
    requires results.None? || results == Some([])
    ensures Format(results) == FailedText
  {
  }

  /** Keys that all hold empty lists render as the nothing-found text. */
  lemma FormatNothingFound(rs: Results)
    requires rs != [] && AllEmpty(rs)
    ensures Format(Some(rs)) == NotFoundText
  {
    MessageEmpty(rs);
  }

  /**
   * Any non-empty bucket makes the text the rendered lines joined with newlines;
   * it opens with the header mark, so it is never mistaken for either sentinel.
   */
  lemma FormatReport(rs: Results)
    requires !AllEmpty(rs)
    ensures Format(Some(rs)) == Join("\n", Message(rs))
    ensures |HeaderMark| <= |Format(Some(rs))| && Format(Some(rs))[..|HeaderMark|] == HeaderMark
    ensures Format(Some(rs)) != FailedText && Format(Some(rs)) != NotFoundText
  {
    MessageEmpty(rs);
    var k := MessageHead(rs);
    var m := Message(rs);
    var text := Join("\n", m);
    JoinPrefix("\n", m);
    assert m[0] == HeaderMark + (rs[k].name + " (" + NatToString(|rs[k].lines|) + "):");
    assert m[0][..|HeaderMark|] == HeaderMark;
    assert text[..|m[0]|][..|HeaderMark|] == text[..|HeaderMark|];
    assert text[0] == HeaderMark[0];
    assert FailedText[0] != HeaderMark[0] && NotFoundText[0] != HeaderMark[0];
  }

  /** The two sentinels differ, so a failed run and an empty one are told apart. */
  lemma SentinelsDiffer()
    ensures FailedText != NotFoundText
  {
    assert FailedText[0] != NotFoundText[0];
  }

  /**
   * When no name or line contains a newline, splitting the report at newlines
   * gives back the rendered lines one by one.
   */
  lemma FormatSplits(rs: Results)
    requires !AllEmpty(rs)
    requires forall k :: 0 <= k < |rs| ==> '\n' !in rs[k].name
    requires forall k, i :: 0 <= k < |rs| && 0 <= i < |rs[k].lines| ==> '\n' !in rs[k].lines[i]
    ensures Split(Format(Some(rs)), '\n') == Message(rs)
  {
    MessageEmpty(rs);
    MessageNoNewline(rs);
    SplitJoin(Message(rs), '\n');
  }

  lemma BlockNoNewline(b: Bucket)
    requires '\n' !in b.name
    requires forall i :: 0 <= i < |b.lines| ==> '\n' !in b.lines[i]
    ensures forall i :: 0 <= i < |Block(b)| ==> '\n' !in Block(b)[i]
  {
    if b.lines != [] {
      var digits := NatToString(|b.lines|);
      assert '\n' !in digits;
      assert '\n' !in Header(b);
      var shown := SuffixSlice(b.lines, MaxShown);
      assert forall i :: 0 <= i < |shown| ==> shown[i] == b.lines[|b.lines| - |shown| + i];
      assert Block(b) == [Header(b)] + shown + [""];
    }
  }

  lemma {:induction false} MessageNoNewline(rs: Results)
    requires forall k :: 0 <= k < |rs| ==> '\n' !in rs[k].name
    requires forall k, i :: 0 <= k < |rs| && 0 <= i < |rs[k].lines| ==> '\n' !in rs[k].lines[i]
    ensures forall i :: 0 <= i < |Message(rs)| ==> '\n' !in Message(rs)[i]
    decreases |rs|
  {
    if rs != [] {
      var init, b := rs[..|rs| - 1], rs[|rs| - 1];
      assert forall k :: 0 <= k < |init| ==> init[k] == rs[k];
      MessageNoNewline(init);
      BlockNoNewline(b);
      assert Message(rs) == Message(init) + Block(b);
    }
  }
}
