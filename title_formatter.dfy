// Validation of the title parts an AI model proposes for an episode
// (series name, episode number, topic summary) against the original video
// title, and the assembly of the final title from the parts that survive.
//
// The fuzzy `partial_ratio` score is a parameter of the operations that use
// it: any function from two strings to a score.

module TitleFormatter {
  import opened Wrappers
  import opened Strings
  import Collections

  const SeriesMatchThreshold: nat := 80

  // ---------------------------------------------------------------------
  // Digit runs (`_extract_numbers`)
  // ---------------------------------------------------------------------

  /** The length of the run of digits at the start of `s`. */
  function LeadingDigits(s: string): (n: nat)
    ensures n <= |s| && AllDigits(s[..n])
    ensures n < |s| ==> !IsDigit(s[n])
  {
    if s == [] || !IsDigit(s[0]) then 0
    else
      var n := LeadingDigits(s[1..]);
      assert s[..n + 1] == [s[0]] + s[1..][..n];
      n + 1
  }

  /** `re.findall(r"\d+", text)`: the maximal runs of digits, left to right. */
  function ExtractNumbers(text: string): (runs: seq<string>)
    ensures forall i :: 0 <= i < |runs| ==> runs[i] != [] && AllDigits(runs[i])
    decreases |text|
  {
    if text == [] then []
    else if !IsDigit(text[0]) then
      ExtractNumbers(text[1..])
    else
      var n := LeadingDigits(text);
      [text[..n]] + ExtractNumbers(text[n..])
  }

  function Flatten(runs: seq<string>): string {
    if runs == [] then [] else runs[0] + Flatten(runs[1..])
  }

  function IsDigitChar(): char -> bool {
    c => IsDigit(c)
  }

  /** Laid end to end, the runs are exactly the digits of the text, in order. */
  lemma {:induction false} ExtractNumbersDigits(text: string)
    ensures Flatten(ExtractNumbers(text)) == Collections.Filter(text, IsDigitChar())
    decreases |text|
  {
    if text != [] {
      if !IsDigit(text[0]) {
        ExtractNumbersDigits(text[1..]);
      } else {
        var n := LeadingDigits(text);
        ExtractNumbersDigits(text[n..]);
        assert text == text[..n] + text[n..];
        Collections.FilterConcat(text[..n], text[n..], IsDigitChar());
        Collections.FilterKeepsAll(text[..n], IsDigitChar());
      }
    }
  }

  /** The runs separated by spaces, with a space after the last one. */
  function JoinSpaced(runs: seq<string>): string {
    if runs == [] then [] else runs[0] + [' '] + JoinSpaced(runs[1..])
  }

  /**
   * The runs are maximal: digit strings written apart come back one run
   * each, never merged and never split.
   */
  lemma {:induction false} ExtractNumbersJoin(runs: seq<string>)
    requires forall i :: 0 <= i < |runs| ==> runs[i] != [] && AllDigits(runs[i])
    ensures ExtractNumbers(JoinSpaced(runs)) == runs
    decreases |runs|
  {
    if runs != [] {
      assert JoinSpaced(runs) == runs[0] + ([' '] + JoinSpaced(runs[1..]));
      ExtractNumbersRunSep(runs[0], ' ', JoinSpaced(runs[1..]));
      ExtractNumbersJoin(runs[1..]);
    }
  }

  /** There are no runs exactly when the text has no digit. */
  lemma {:induction false} ExtractNumbersNone(text: string)
    ensures ExtractNumbers(text) == [] <==> NoDigits(text)
    decreases |text|
  {
    if text != [] && !IsDigit(text[0]) {
      ExtractNumbersNone(text[1..]);
      if NoDigits(text[1..]) {
        forall k | 0 <= k < |text| ensures !IsDigit(text[k]) {
          if k > 0 { assert text[k] == text[1..][k - 1]; }
        }
      }
    }
  }

  /** A text with no digit in it. */
  predicate NoDigits(s: string) {
    forall k :: 0 <= k < |s| ==> !IsDigit(s[k])
  }

  /**
   * A run of digits followed by any character that is not a digit comes out
   * whole, ahead of the runs of the rest: `"12/15"` gives `"12"` and then
   * the runs of `"15"`.
   */
  lemma ExtractNumbersRunSep(r: string, c: char, rest: string)
    requires r != [] && AllDigits(r) && !IsDigit(c)
    ensures ExtractNumbers(r + ([c] + rest)) == [r] + ExtractNumbers(rest)
  {
    var text := r + ([c] + rest);
    LeadingDigitsOfRun(r, c, rest);
    assert text[..|r|] == r && text[|r|..] == [c] + rest;
    assert ([c] + rest)[1..] == rest;
  }

  /** A text that is one run of digits is that single run. */
  lemma ExtractNumbersRun(r: string)
    requires r != [] && AllDigits(r)
    ensures ExtractNumbers(r) == [r]
  {
    LeadingDigitsAll(r);
    assert r[..|r|] == r && r[|r|..] == [];
  }

  lemma {:induction false} LeadingDigitsAll(r: string)
    requires AllDigits(r)
    ensures LeadingDigits(r) == |r|
    decreases |r|
  {
    if r != [] {
      LeadingDigitsAll(r[1..]);
    }
  }

  /** Text without digits in front changes nothing: it is skipped. */
  lemma {:induction false} ExtractNumbersSkip(s: string, t: string)
    requires NoDigits(s)
    ensures ExtractNumbers(s + t) == ExtractNumbers(t)
    decreases |s|
  {
    if s == [] {
      assert s + t == t;
    } else {
      assert (s + t)[0] == s[0];
      assert (s + t)[1..] == s[1..] + t;
      ExtractNumbersSkip(s[1..], t);
    }
  }

  /**
   * The runs `runs` written between the texts `seps`: `seps[0]`, `runs[0]`,
   * `seps[1]`, ..., `runs[n-1]`, `seps[n]`.
   */
  function Woven(runs: seq<string>, seps: seq<string>): string
    requires |seps| == |runs| + 1
    decreases |runs|
  {
    if runs == [] then seps[0] else seps[0] + (runs[0] + Woven(runs[1..], seps[1..]))
  }

  /**
   * The runs are exactly the maximal digit runs: digit strings written
   * between texts without digits, with at least one character between two
   * of them, come back one run each, in order, never merged and never split.
   */
  lemma {:induction false} ExtractNumbersWoven(runs: seq<string>, seps: seq<string>)
    requires |seps| == |runs| + 1
    requires forall i :: 0 <= i < |runs| ==> runs[i] != [] && AllDigits(runs[i])
    requires forall j :: 0 <= j < |seps| ==> NoDigits(seps[j])
    requires forall j :: 0 < j < |runs| ==> seps[j] != []
    ensures ExtractNumbers(Woven(runs, seps)) == runs
    decreases |runs|
  {
    if runs == [] {
      ExtractNumbersSkip(seps[0], []);
      assert seps[0] + [] == seps[0];
    } else {
      var w := Woven(runs[1..], seps[1..]);
      ExtractNumbersSkip(seps[0], runs[0] + w);
      if seps[1] != [] {
        WovenHead(runs[1..], seps[1..]);
        assert !IsDigit(seps[1][0]);
      } else {
        assert |runs| == 1 && w == [];
      }
      ExtractNumbersRunThen(runs[0], w);
      ExtractNumbersWoven(runs[1..], seps[1..]);
    }
  }

  /** A run of digits followed by text that does not start with a digit comes out whole. */
  lemma ExtractNumbersRunThen(r: string, w: string)
    requires r != [] && AllDigits(r) && (w == [] || !IsDigit(w[0]))
    ensures ExtractNumbers(r + w) == [r] + ExtractNumbers(w)
  {
    if w == [] {
      ExtractNumbersRun(r);
      assert r + w == r;
    } else {
      assert w == [w[0]] + w[1..];
      ExtractNumbersRunSep(r, w[0], w[1..]);
    }
  }

  /** A woven text starts with the first character of its first separator. */
  lemma WovenHead(runs: seq<string>, seps: seq<string>)
    requires |seps| == |runs| + 1 && seps[0] != []
    ensures Woven(runs, seps) != [] && Woven(runs, seps)[0] == seps[0][0]
  {
  }

  lemma {:induction false} LeadingDigitsOfRun(r: string, c: char, rest: string)
    requires AllDigits(r) && !IsDigit(c)
    ensures LeadingDigits(r + ([c] + rest)) == |r|
    decreases |r|
  {
    var text := r + ([c] + rest);
    if r == [] {
      assert text == [c] + rest;
    } else {
      assert text[0] == r[0];
      assert text[1..] == r[1..] + ([c] + rest);
      LeadingDigitsOfRun(r[1..], c, rest);
    }
  }

  // ---------------------------------------------------------------------
  // Episode numbers (`_episode_exists_in_title`)
  // ---------------------------------------------------------------------

  /** `s.lstrip("0")`. */
  function StripZeros(s: string): (r: string)
    ensures r == [] || r[0] != '0'
    ensures |r| <= |s| && s == Repeat('0', |s| - |r|) + r
  {
    if s != [] && s[0] == '0' then
      var r := StripZeros(s[1..]);
      var k := |s| - 1 - |r|;
      assert Repeat('0', k + 1) == ['0'] + Repeat('0', k);
      assert s == ['0'] + s[1..];
      r
    else
      s
  }

  function StripAll(runs: seq<string>): (r: seq<string>)
    ensures |r| == |runs| && forall j :: 0 <= j < |runs| ==> r[j] == StripZeros(runs[j])
  {
    seq(|runs|, j requires 0 <= j < |runs| => StripZeros(runs[j]))
  }

  /** The early-return search over the episode's digit runs. */
  function AnyEpisodeMatch(eps: seq<string>, titleNums: seq<string>): (r: bool)
    ensures r <==> exists i, j :: 0 <= i < |eps| && 0 <= j < |titleNums| && StripZeros(eps[i]) == StripZeros(titleNums[j])
  {
    if eps == [] then false
    else if eps[0] in titleNums || StripZeros(eps[0]) in StripAll(titleNums) then
      FirstRunMatches(eps, titleNums);
      true
    else
      var r := AnyEpisodeMatch(eps[1..], titleNums);
      assert forall i :: 1 <= i < |eps| ==> eps[i] == eps[1..][i - 1];
      r
  }

  lemma FirstRunMatches(eps: seq<string>, titleNums: seq<string>)
    requires eps != [] && (eps[0] in titleNums || StripZeros(eps[0]) in StripAll(titleNums))
    ensures exists i, j :: 0 <= i < |eps| && 0 <= j < |titleNums| && StripZeros(eps[i]) == StripZeros(titleNums[j])
  {
    var stripped := StripAll(titleNums);
    var j :| 0 <= j < |titleNums| && (titleNums[j] == eps[0] || stripped[j] == StripZeros(eps[0]));
    assert StripZeros(eps[0]) == StripZeros(titleNums[j]);
  }

  /**
   * The episode is in the title when both are non-empty and some digit run
   * of the episode equals some digit run of the title once leading zeros
   * are dropped (a literal match is one such match).
   */
  function EpisodeExistsInTitle(title: string, episode: string): (r: bool)
    ensures r <==> title != [] && episode != [] &&
                   var eps, ts := ExtractNumbers(episode), ExtractNumbers(title);
                   exists i, j :: 0 <= i < |eps| && 0 <= j < |ts| && StripZeros(eps[i]) == StripZeros(ts[j])
  {
    if episode == [] || title == [] then false
    else
      var eps := ExtractNumbers(episode);
      if eps == [] then false else AnyEpisodeMatch(eps, ExtractNumbers(title))
  }

  /** An episode string without digits is never in the title. */
  lemma EpisodeNeedsDigits(title: string, episode: string)
    requires NoDigits(episode)
    ensures !EpisodeExistsInTitle(title, episode)
  {
    ExtractNumbersNone(episode);
  }

  /** Two digit runs match exactly when they denote the same number: "01" matches "1". */
  lemma StripZerosSameValue(a: string, b: string)
    requires AllDigits(a) && AllDigits(b)
    ensures StripZeros(a) == StripZeros(b) <==> DecimalValue(a) == DecimalValue(b)
  {
    StripZerosValue(a);
    StripZerosValue(b);
    if DecimalValue(a) == DecimalValue(b) {
      ValueDeterminesDigits(StripZeros(a), StripZeros(b));
    }
  }

  /** Dropping leading zeros keeps a digit string's value. */
  lemma StripZerosValue(a: string)
    requires AllDigits(a)
    ensures AllDigits(StripZeros(a)) && DecimalValue(StripZeros(a)) == DecimalValue(a)
  {
    var sa := StripZeros(a);
    var k := |a| - |sa|;
    assert forall i :: 0 <= i < |sa| ==> sa[i] == a[k + i];
    LeadingZerosValue(k, sa);
  }

  /** Without leading zeros a digit string is determined by its value. */
  lemma {:induction false} ValueDeterminesDigits(a: string, b: string)
    requires AllDigits(a) && AllDigits(b)
    requires (a == [] || a[0] != '0') && (b == [] || b[0] != '0')
    requires DecimalValue(a) == DecimalValue(b)
    ensures a == b
    decreases |a| + |b|
  {
    if a == [] || b == [] {
      if a != [] { PositiveValue(a); }
      if b != [] { PositiveValue(b); }
    } else {
      var a', b' := a[..|a| - 1], b[..|b| - 1];
      assert a' == [] || a'[0] == a[0];
      assert b' == [] || b'[0] == b[0];
      assert DigitValue(a[|a| - 1]) == DigitValue(b[|b| - 1]);
      ValueDeterminesDigits(a', b');
      assert a == a' + [a[|a| - 1]] && b == b' + [b[|b| - 1]];
    }
  }

  lemma {:induction false} PositiveValue(s: string)
    requires s != [] && AllDigits(s) && s[0] != '0'
    ensures DecimalValue(s) > 0
    decreases |s|
  {
    if |s| > 1 {
      PositiveValue(s[..|s| - 1]);
    }
  }

  // ---------------------------------------------------------------------
  // Series names (`_series_exists_in_title`)
  // ---------------------------------------------------------------------

  /** The separators of the series name: white space, dashes, `|` and `:`. */
  predicate IsSeparator(c: char) {
    IsSpace(c) || c == '-' || c == '–' || c == '—' || c == '|' || c == ':'
  }

  function NotSeparator(): char -> bool {
    c => !IsSeparator(c)
  }

  /**
   * The pieces between separators. Consecutive separators give empty
   * pieces here where the source's pattern splits on a whole run of them;
   * only pieces longer than 2 are ever used, so the two agree on those.
   */
  function SplitParts(s: string): (parts: seq<string>)
    ensures |parts| >= 1
    ensures forall i, k :: 0 <= i < |parts| && 0 <= k < |parts[i]| ==> !IsSeparator(parts[i][k])
  {
    if s == [] then [[]]
    else
      var rest := SplitParts(s[1..]);
      if IsSeparator(s[0]) then [[]] + rest
      else
        assert forall k :: 1 <= k < |[s[0]] + rest[0]| ==> ([s[0]] + rest[0])[k] == rest[0][k - 1];
        [[s[0]] + rest[0]] + rest[1..]
  }

  /** The pieces hold every non-separator character, in order. */
  lemma {:induction false} SplitPartsKeepText(s: string)
    ensures Flatten(SplitParts(s)) == Collections.Filter(s, NotSeparator())
  {
    if s != [] {
      var rest := SplitParts(s[1..]);
      SplitPartsKeepText(s[1..]);
      if IsSeparator(s[0]) {
        assert SplitParts(s) == [[]] + rest;
        assert ([[]] + rest)[1..] == rest;
      } else {
        var first := [s[0]] + rest[0];
        assert SplitParts(s) == [first] + rest[1..];
        assert ([first] + rest[1..])[1..] == rest[1..];
        assert Flatten(rest) == rest[0] + Flatten(rest[1..]);
      }
    }
  }

  function Significant(): string -> bool {
    p => |p| > 2
  }

  function PartMatches(title: string, ratio: (string, string) -> nat): string -> bool {
    p => ratio(Lower(p), Lower(title)) >= SeriesMatchThreshold
  }

  /**
   * The series is in the title when both are non-empty and either the
   * whole name scores at least 80 against the title, or there is a part
   * longer than 2 characters and at least half of those parts score 80.
   */
  function SeriesExistsInTitle(title: string, series: string, ratio: (string, string) -> nat): (r: bool)
    ensures r ==> title != [] && series != []
    ensures title != [] && series != [] && ratio(Lower(series), Lower(title)) >= SeriesMatchThreshold ==> r
    ensures title != [] && series != [] && ratio(Lower(series), Lower(title)) < SeriesMatchThreshold ==>
              (r <==> (var sig := Collections.Filter(SplitParts(series), Significant());
                       sig != [] && 2 * Collections.CountIf(sig, PartMatches(title, ratio)) >= |sig|))
  {
    if series == [] || title == [] then false
    else if ratio(Lower(series), Lower(title)) >= SeriesMatchThreshold then true
    else
      var sig := Collections.Filter(SplitParts(series), Significant());
      if sig == [] then false
      else 2 * Collections.CountIf(sig, PartMatches(title, ratio)) >= |sig|
  }

  /** When every long part scores 80, and there is one, the series is accepted. */
  lemma SeriesAllPartsMatch(title: string, series: string, ratio: (string, string) -> nat)
    requires title != [] && series != []
    requires exists p :: p in SplitParts(series) && |p| > 2
    requires forall p :: p in SplitParts(series) && |p| > 2 ==> ratio(Lower(p), Lower(title)) >= SeriesMatchThreshold
    ensures SeriesExistsInTitle(title, series, ratio)
  {
    var parts := SplitParts(series);
    var sig := Collections.Filter(parts, Significant());
    Collections.FilterKeeps(parts, Significant());
    var p :| p in parts && |p| > 2;
    assert p in sig;
    assert forall k :: 0 <= k < |sig| ==> PartMatches(title, ratio)(sig[k]);
    Collections.FilterKeepsAll(sig, PartMatches(title, ratio));
  }

  /** When neither the name nor any of its long parts scores 80 the series is rejected. */
  lemma SeriesNoPartMatches(title: string, series: string, ratio: (string, string) -> nat)
    requires ratio(Lower(series), Lower(title)) < SeriesMatchThreshold
    requires forall p :: p in SplitParts(series) && |p| > 2 ==> ratio(Lower(p), Lower(title)) < SeriesMatchThreshold
    ensures !SeriesExistsInTitle(title, series, ratio)
  {
    if series != [] && title != [] {
      var parts := SplitParts(series);
      var sig := Collections.Filter(parts, Significant());
      Collections.FilterKeeps(parts, Significant());
      assert forall k :: 0 <= k < |sig| ==> !PartMatches(title, ratio)(sig[k]);
      Collections.CountIfZero(sig, PartMatches(title, ratio));
    }
  }

  // ---------------------------------------------------------------------
  // Title assembly (`format_title`, `get_safe_title`)
  // ---------------------------------------------------------------------

  /** The `title_components` object; a key that is absent or null is `None`. */
  datatype TitleComponents = TitleComponents(seriesName: Option<string>, episodeNumber: Option<string>,
                                             topicSummary: Option<string>)

  /** The AI reply; `titleComponents` is `None` when absent, null or empty. */
  datatype AiResponse = AiResponse(titleComponents: Option<TitleComponents>)

  /** Python truthiness of an optional string. */
  predicate Present(s: Option<string>) {
    s.Some? && s.value != []
  }

  predicate SeriesKept(title: string, c: TitleComponents, ratio: (string, string) -> nat) {
    Present(c.seriesName) && SeriesExistsInTitle(title, c.seriesName.value, ratio)
  }

  predicate EpisodeKept(title: string, c: TitleComponents) {
    Present(c.episodeNumber) && EpisodeExistsInTitle(title, c.episodeNumber.value)
  }

  /**
   * `format_title`: without components or without a topic, the original
   * title; otherwise the topic, prefixed by the series when the series was
   * found in the title, and by series and episode when both were.
   */
  function FormatTitle(title: string, components: Option<TitleComponents>, ratio: (string, string) -> nat): (r: string)
    ensures components.None? || !Present(components.value.topicSummary) ==> r == title
    ensures components.Some? && Present(components.value.topicSummary) ==>
              var c := components.value;
              var topic := c.topicSummary.value;
              if SeriesKept(title, c, ratio) && EpisodeKept(title, c) then
                r == c.seriesName.value + " " + c.episodeNumber.value + " | " + topic
              else if SeriesKept(title, c, ratio) then
                r == c.seriesName.value + " | " + topic
              else
                r == topic
  {
    match components
    case None => title
    case Some(c) =>
      var series := if Present(c.seriesName) && !SeriesExistsInTitle(title, c.seriesName.value, ratio) then None else c.seriesName;
      var episode := if Present(c.episodeNumber) && !EpisodeExistsInTitle(title, c.episodeNumber.value) then None else c.episodeNumber;
      if !Present(c.topicSummary) then title
      else if Present(series) && Present(episode) then series.value + " " + episode.value + " | " + c.topicSummary.value
      else if Present(series) then series.value + " | " + c.topicSummary.value
      else c.topicSummary.value
  }

  /**
   * With a topic the title always ends in it, and an episode number only
   * ever appears behind a series name that was found in the title.
   */
  lemma FormatTitleEndsWithTopic(title: string, c: TitleComponents, ratio: (string, string) -> nat)
    requires Present(c.topicSummary)
    ensures EndsWith(FormatTitle(title, Some(c), ratio), c.topicSummary.value)
    ensures !SeriesKept(title, c, ratio) ==> FormatTitle(title, Some(c), ratio) == c.topicSummary.value
  {
    var r, topic := FormatTitle(title, Some(c), ratio), c.topicSummary.value;
    assert r[|r| - |topic|..] == topic;
  }

  /** `get_safe_title`: the original title unless the reply carries components. */
  function GetSafeTitle(title: string, ai: Option<AiResponse>, ratio: (string, string) -> nat): (r: string)
    ensures ai.None? || ai.value.titleComponents.None? ==> r == title
    ensures ai.Some? && ai.value.titleComponents.Some? ==> r == FormatTitle(title, ai.value.titleComponents, ratio)
  {
    if ai.None? then title
    else match ai.value.titleComponents
      case None => title
      case Some(c) => FormatTitle(title, Some(c), ratio)
  }
}
