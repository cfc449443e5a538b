/**
 * `ReportOptions`: what a reporter does with string values, how often it
 * runs, and which variable names a white list and a black list of
 * wildcards let through. `ReportState` counts what one report wrote.
 */
module ReportOptions {
  import opened Wrappers
  import opened Strings
  import opened Wildcard

  /**
   * The options. A missing matcher is a list that was never given (or
   * given empty); the strings keep the last lists passed to `build_filter`.
   */
  datatype Options = Options(
    quoteString: bool,
    questionMark: char,
    whiteWildcards: string,
    blackWildcards: string,
    intervalMs: int,
    white: Option<Matcher>,
    black: Option<Matcher>)

  /** The counters one report pass keeps. */
  datatype ReportState = ReportState(
    total: nat,
    gaugeCount: nat,
    counterCount: nat,
    histCount: nat,
    noMetricCount: nat,
    discardCount: nat)

  /** A default-constructed `ReportOptions`. */
  function Default(): (o: Options)
    ensures o.quoteString && o.questionMark == '?' && o.intervalMs == 0
    ensures o.whiteWildcards == "" && o.blackWildcards == ""
    ensures o.white.None? && o.black.None?
  {
    Options(true, '?', "", "", 0, None, None)
  }

  /** A default-constructed `ReportState`. */
  function NewReportState(): (s: ReportState)
    ensures s.total == 0 && s.gaugeCount == 0 && s.counterCount == 0
    ensures s.histCount == 0 && s.noMetricCount == 0 && s.discardCount == 0
  {
    ReportState(0, 0, 0, 0, 0, 0)
  }

  /** The `quote_string(flag)` setter: only that option changes. */
  function WithQuoteString(o: Options, flag: bool): (r: Options)
    ensures r.quoteString == flag
    ensures r == o.(quoteString := flag)
  {
    Options(flag, o.questionMark, o.whiteWildcards, o.blackWildcards, o.intervalMs, o.white, o.black)
  }

  /** The `interval_ms(ms)` setter: only that option changes. */
  function WithIntervalMs(o: Options, ms: int): (r: Options)
    requires -0x8000_0000 <= ms < 0x8000_0000
    ensures r.intervalMs == ms
    ensures r == o.(intervalMs := ms)
  {
    Options(o.quoteString, o.questionMark, o.whiteWildcards, o.blackWildcards, ms, o.white, o.black)
  }

  /**
   * `build_filter`: record both lists and the question mark, and build a
   * matcher for each non-empty list, the white one answering true and the
   * black one false when it holds nothing. An empty list leaves whatever
   * matcher an earlier call built.
   */
  function BuildFilter(o: Options, white: string, black: string, qm: char := '?'): (r: Options)
    ensures r.quoteString == o.quoteString && r.intervalMs == o.intervalMs
    ensures r.questionMark == qm && r.whiteWildcards == white && r.blackWildcards == black
    ensures white == "" ==> r.white == o.white
    ensures black == "" ==> r.black == o.black
    ensures white != "" ==> r.white.Some? && r.white.value.qm == qm && r.white.value.onBothEmpty
    ensures black != "" ==> r.black.Some? && r.black.value.qm == qm && !r.black.value.onBothEmpty
  {
    var w := if white != "" then Some(NewMatcher(white, qm, true)) else o.white;
    var b := if black != "" then Some(NewMatcher(black, qm, false)) else o.black;
    Options(o.quoteString, qm, white, black, o.intervalMs, w, b)
  }

  /** The meaning of `allow_report`: the white list admits the name and the black list does not. */
  predicate Allowed(o: Options, name: string)
  {
    (o.white.None? || Matches(o.white.value, name)) &&
    (o.black.None? || !Matches(o.black.value, name))
  }

  /** `allow_report`: refuse on a white miss, then refuse on a black hit, else allow. */
  method AllowReport(o: Options, name: string) returns (b: bool)
    requires NUL !in name
    requires o.white.Some? ==> o.white.value.qm != NUL
    requires o.black.Some? ==> o.black.value.qm != NUL
    ensures b <==> Allowed(o, name)
    ensures o.white.Some? && !Matches(o.white.value, name) ==> !b
    ensures o.black.Some? && Matches(o.black.value, name) ==> !b
  {
    if o.white.Some? {
      var w := Match(o.white.value, name);
      if !w {
        return false;
      }
    }
    if o.black.Some? {
      var k := Match(o.black.value, name);
      if k {
        return false;
      }
    }
    return true;
  }

  /** A non-empty list always yields at least one pattern or exact name. */
  lemma NonEmptyListIsNeverEmpty(list: string, qm: char, onBothEmpty: bool)
    requires list != ""
    ensures NewMatcher(list, qm, onBothEmpty).wildcards != [] || NewMatcher(list, qm, onBothEmpty).exact != {}
  {
    var m := NewMatcher(list, qm, onBothEmpty);
    var tokens := Split(list, SEPARATORS);
    var t := tokens[0];
    assert t in tokens;
    if IsPattern(t, qm) {
      assert t in m.wildcards;
    } else {
      assert t in m.exact;
    }
  }

  /**
   * So the answer a matcher gives with nothing configured never shows
   * through `build_filter`: a name passes a list's matcher exactly when it
   * is an exact name or fits a pattern of that list.
   */
  lemma ListMatcherIgnoresBothEmpty(list: string, qm: char, onBothEmpty: bool, name: string)
    requires list != ""
    ensures var m := NewMatcher(list, qm, onBothEmpty);
      Matches(m, name) <==> name in m.exact || exists i :: 0 <= i < |m.wildcards| && Glob(m.wildcards[i], name, qm)
  {
    NonEmptyListIsNeverEmpty(list, qm, onBothEmpty);
  }

  /** Without lists every name is reported. */
  lemma DefaultAllowsAll(name: string)
    ensures Allowed(BuildFilter(Default(), "", ""), name)
  {
  }

  /** A name that is an exact entry of the black list is never reported, whatever the white list says. */
  lemma BlackExactRefuses(o: Options, white: string, black: string, qm: char, name: string)
    requires black != ""
    requires name in Split(black, SEPARATORS) && !IsPattern(name, qm)
    ensures !Allowed(BuildFilter(o, white, black, qm), name)
  {
    var r := BuildFilter(o, white, black, qm);
    assert name in r.black.value.exact;
  }

  /** With a white list only, a name that is an exact entry of it is reported. */
  lemma WhiteExactAdmits(white: string, qm: char, name: string)
    requires white != ""
    requires name in Split(white, SEPARATORS) && !IsPattern(name, qm)
    ensures Allowed(BuildFilter(Default(), white, "", qm), name)
  {
    var r := BuildFilter(Default(), white, "", qm);
    assert name in r.white.value.exact;
  }
}
