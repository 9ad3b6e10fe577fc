// The ffmpeg side of audio conversion: the input path made safe for the
// command line, the loudness statistics read from the first `{` to the
// last `}` of the analysis output, the two-pass `loudnorm` filter built
// from them, and the argument lists of both ffmpeg runs.
//
// Running ffmpeg is not part of this model; its error output and the JSON
// parser are parameters.

module AudioProcessor {
  import opened Wrappers
  import opened Strings

  // ---------------------------------------------------------------------
  // Input path
  // ---------------------------------------------------------------------

  /** `os.path.isabs` on POSIX paths. */
  predicate IsAbsolute(path: string) {
    StartsWith(path, "/")
  }

  /** A relative path not already starting with "./" gets "./" in front; any other path is kept. */
  function SafeInput(path: string): (r: string)
    ensures IsAbsolute(r) || StartsWith(r, "./")
    ensures r == path <==> IsAbsolute(path) || StartsWith(path, "./")
    ensures r != path ==> r == "./" + path
  {
    if !IsAbsolute(path) && !StartsWith(path, "./") then "./" + path else path
  }

  /** Making a path safe twice is making it safe once. */
  lemma SafeInputIdempotent(path: string)
    ensures SafeInput(SafeInput(path)) == SafeInput(path)
  {
  }

  // ---------------------------------------------------------------------
  // Loudness statistics
  // ---------------------------------------------------------------------

  /** `s.find(c)`: the first index of `c`, or -1. */
  function Find(s: string, c: char): (i: int)
    ensures -1 <= i < |s|
    ensures i >= 0 ==> s[i] == c && forall j :: 0 <= j < i ==> s[j] != c
    ensures i == -1 ==> forall j :: 0 <= j < |s| ==> s[j] != c
  {
    if s == [] then -1
    else if s[0] == c then 0
    else var k := Find(s[1..], c); if k == -1 then -1 else k + 1
  }

  /** `s.rfind(c)`: the last index of `c`, or -1. */
  function RFind(s: string, c: char): (i: int)
    ensures -1 <= i < |s|
    ensures i >= 0 ==> s[i] == c && forall j :: i < j < |s| ==> s[j] != c
    ensures i == -1 ==> forall j :: 0 <= j < |s| ==> s[j] != c
  {
    if s == [] then -1
    else if s[|s| - 1] == c then |s| - 1
    else RFind(s[..|s| - 1], c)
  }

  /** Python's `s[a:b]` for `0 <= a`, `0 <= b`: empty when `b <= a`. */
  function Slice(s: string, a: nat, b: nat): (r: string)
    requires a <= |s| && b <= |s|
    ensures |r| == if a < b then b - a else 0
  {
    if a < b then s[a..b] else []
  }

  /**
   * The text handed to the JSON parser, or `None` when the output has no
   * `{`. The end bound is `rfind("}") + 1`, which is never -1, so a
   * missing `}` gives an empty slice rather than `None`.
   */
  function JsonSlice(output: string): (r: Option<string>)
    ensures r.None? <==> forall j :: 0 <= j < |output| ==> output[j] != '{'
    ensures r.Some? && r.value != [] ==> r.value[0] == '{' && r.value[|r.value| - 1] == '}'
  {
    var start := Find(output, '{');
    var end := RFind(output, '}') + 1;
    if start != -1 && end != -1 then Some(Slice(output, start, end)) else None
  }

  /** The braced text between the first `{` and the last `}` is exactly what is parsed. */
  lemma JsonSliceOfWrapped(noise: string, json: string, tail: string)
    requires forall j :: 0 <= j < |noise| ==> noise[j] != '{'
    requires json != [] && json[0] == '{' && json[|json| - 1] == '}'
    requires forall j :: 0 <= j < |tail| ==> tail[j] != '}'
    ensures JsonSlice(noise + json + tail) == Some(json)
  {
    var out := noise + json + tail;
    FindAfter(noise, json + tail, '{');
    assert out == noise + (json + tail);
    RFindBefore(noise + json, tail, '}');
    assert Slice(out, |noise|, |noise| + |json|) == json;
  }

  lemma {:induction false} FindAfter(pre: string, rest: string, c: char)
    requires forall j :: 0 <= j < |pre| ==> pre[j] != c
    requires rest != [] && rest[0] == c
    ensures Find(pre + rest, c) == |pre|
    decreases |pre|
  {
    if pre != [] {
      assert (pre + rest)[1..] == pre[1..] + rest;
      FindAfter(pre[1..], rest, c);
    } else {
      assert pre + rest == rest;
    }
  }

  lemma {:induction false} RFindBefore(front: string, post: string, c: char)
    requires front != [] && front[|front| - 1] == c
    requires forall j :: 0 <= j < |post| ==> post[j] != c
    ensures RFind(front + post, c) == |front| - 1
    decreases |post|
  {
    if post != [] {
      var shorter := post[..|post| - 1];
      assert (front + post)[..|front + post| - 1] == front + shorter;
      RFindBefore(front, shorter, c);
    } else {
      assert front + post == front;
    }
  }

  /** The parsed statistics: the parser maps text to a JSON object (`None` for a decode error). */
  function LoudnessStats(output: string, parse: string -> Option<map<string, string>>): (r: Option<map<string, string>>)
    ensures (forall j :: 0 <= j < |output| ==> output[j] != '{') ==> r.None?
    ensures r.Some? ==> JsonSlice(output).Some? && r == parse(JsonSlice(output).value)
    ensures JsonSlice(output).Some? ==> r == parse(JsonSlice(output).value)
  {
    match JsonSlice(output)
    case None => None
    case Some(text) => parse(text)
  }

  /** Logged noise before the statistics and a tail without `}` do not reach the parser. */
  lemma LoudnessStatsOfWrapped(noise: string, json: string, tail: string, parse: string -> Option<map<string, string>>)
    requires forall j :: 0 <= j < |noise| ==> noise[j] != '{'
    requires json != [] && json[0] == '{' && json[|json| - 1] == '}'
    requires forall j :: 0 <= j < |tail| ==> tail[j] != '}'
    ensures LoudnessStats(noise + json + tail, parse) == parse(json)
  {
    JsonSliceOfWrapped(noise, json, tail);
  }

  // ---------------------------------------------------------------------
  // The loudnorm filter
  // ---------------------------------------------------------------------

  const BaseFilter := "loudnorm=I=-19:TP=-1.5:LRA=11"
  const AnalysisFilter := "loudnorm=I=-19:TP=-1.5:LRA=11:print_format=json"

  /** The statistics the second pass needs, in the order they are written. */
  const StatKeys := ["input_i", "input_lra", "input_tp", "input_thresh", "target_offset"]

  /** The filter, or the key whose absence raises `KeyError`. */
  datatype FilterResult = FilterText(text: string) | MissingKey(key: string)

  /** One `name=value` option followed by the rest of the filter, `:`-separated. */
  function Then(option: string, rest: string): string {
    option + ":" + rest
  }

  /**
   * The two-pass filter: the base targets followed by the measured input
   * loudness, loudness range, true peak and threshold, the target offset,
   * and `linear=true`, in that order.
   */
  function TwoPassFilter(stats: map<string, string>): string
    requires forall k :: k in StatKeys ==> k in stats
  {
    Then("loudnorm=I=-19", Then("TP=-1.5", Then("LRA=11",
      Then("measured_I=" + stats["input_i"], Then("measured_LRA=" + stats["input_lra"],
      Then("measured_TP=" + stats["input_tp"], Then("measured_thresh=" + stats["input_thresh"],
      Then("offset=" + stats["target_offset"], "linear=true"))))))))
  }

  /** The first of the needed keys that the statistics lack. */
  function FirstMissing(stats: map<string, string>, keys: seq<string>): (r: Option<string>)
    ensures r.None? <==> forall k :: k in keys ==> k in stats
    ensures r.Some? ==> r.value in keys && r.value !in stats
  {
    if keys == [] then None
    else if keys[0] !in stats then Some(keys[0])
    else FirstMissing(stats, keys[1..])
  }

  /**
   * Single-pass filter without (or with empty) statistics; otherwise the
   * measured values are appended, and a missing one raises.
   */
  function LoudnormFilter(stats: Option<map<string, string>>): (r: FilterResult)
    ensures r.FilterText? ==> StartsWith(r.text, BaseFilter)
    ensures stats.None? || stats.value == map[] ==> r == FilterText(BaseFilter)
    ensures r.MissingKey? <==> stats.Some? && stats.value != map[] && exists k :: k in StatKeys && k !in stats.value
    ensures r.MissingKey? ==> r.key in StatKeys && r.key !in stats.value
    ensures stats.Some? && stats.value != map[] && (forall k :: k in StatKeys ==> k in stats.value)
            ==> r == FilterText(TwoPassFilter(stats.value))
  {
    if stats.None? || stats.value == map[] then FilterText(BaseFilter)
    else
      match FirstMissing(stats.value, StatKeys)
      case Some(k) => MissingKey(k)
      case None =>
        TwoPassStartsWithBase(stats.value);
        FilterText(TwoPassFilter(stats.value))
  }

  lemma TwoPassStartsWithBase(stats: map<string, string>)
    requires forall k :: k in StatKeys ==> k in stats
    ensures StartsWith(TwoPassFilter(stats), BaseFilter)
  {
    var rest := Then("measured_I=" + stats["input_i"], Then("measured_LRA=" + stats["input_lra"],
      Then("measured_TP=" + stats["input_tp"], Then("measured_thresh=" + stats["input_thresh"],
      Then("offset=" + stats["target_offset"], "linear=true")))));
    assert TwoPassFilter(stats) == BaseFilter + (":" + rest);
  }

  /** The measured options of the two-pass filter, in the order they are written. */
  function MeasuredOptions(stats: map<string, string>): seq<string>
    requires forall k :: k in StatKeys ==> k in stats
  {
    ["measured_I=" + stats["input_i"], "measured_LRA=" + stats["input_lra"],
     "measured_TP=" + stats["input_tp"], "measured_thresh=" + stats["input_thresh"],
     "offset=" + stats["target_offset"], "linear=true"]
  }

  /** The measured tail of the two-pass filter. */
  function MeasuredTail(stats: map<string, string>): string
    requires forall k :: k in StatKeys ==> k in stats
  {
    Then("measured_I=" + stats["input_i"], Then("measured_LRA=" + stats["input_lra"],
      Then("measured_TP=" + stats["input_tp"], Then("measured_thresh=" + stats["input_thresh"],
      Then("offset=" + stats["target_offset"], "linear=true")))))
  }

  /**
   * When no measured value holds ':', splitting the two-pass filter on ':'
   * gives back the base targets followed by the measured options, in order.
   */
  lemma FilterOptionsInOrder(stats: map<string, string>)
    requires forall k :: k in StatKeys ==> k in stats && Free(stats[k], ':')
    ensures SplitOn(TwoPassFilter(stats), ':')
         == ["loudnorm=I=-19", "TP=-1.5", "LRA=11"] + MeasuredOptions(stats)
  {
    var r3 := MeasuredTail(stats);
    MeasuredSplit(stats);
    var r2 := Then("LRA=11", r3);
    var r1 := Then("TP=-1.5", r2);
    assert TwoPassFilter(stats) == Then("loudnorm=I=-19", r1);
    BaseOptionFree("LRA=11");
    BaseOptionFree("TP=-1.5");
    BaseOptionFree("loudnorm=I=-19");
    SplitThen("LRA=11", r3);
    SplitThen("TP=-1.5", r2);
    SplitThen("loudnorm=I=-19", r1);
  }

  lemma BaseOptionFree(option: string)
    requires option == "LRA=11" || option == "TP=-1.5" || option == "loudnorm=I=-19"
    ensures Free(option, ':')
  {
  }

  lemma MeasuredSplit(stats: map<string, string>)
    requires forall k :: k in StatKeys ==> k in stats && Free(stats[k], ':')
    ensures SplitOn(MeasuredTail(stats), ':') == MeasuredOptions(stats)
  {
    var m := MeasuredOptions(stats);
    MeasuredFree(stats);
    SplitSix(m[0], m[1], m[2], m[3], m[4], m[5]);
    assert MeasuredTail(stats) == Then(m[0], Then(m[1], Then(m[2], Then(m[3], Then(m[4], m[5])))));
  }

  lemma MeasuredFree(stats: map<string, string>)
    requires forall k :: k in StatKeys ==> k in stats && Free(stats[k], ':')
    ensures forall i :: 0 <= i < 6 ==> Free(MeasuredOptions(stats)[i], ':')
  {
    assert "input_i" in StatKeys && "input_lra" in StatKeys && "input_tp" in StatKeys;
    assert "input_thresh" in StatKeys && "target_offset" in StatKeys;
    FreeConcat("measured_I=", stats["input_i"]);
    FreeConcat("measured_LRA=", stats["input_lra"]);
    FreeConcat("measured_TP=", stats["input_tp"]);
    FreeConcat("measured_thresh=", stats["input_thresh"]);
    FreeConcat("offset=", stats["target_offset"]);
  }

  lemma SplitSix(a: string, b: string, c: string, d: string, e: string, f: string)
    requires Free(a, ':') && Free(b, ':') && Free(c, ':') && Free(d, ':') && Free(e, ':') && Free(f, ':')
    ensures SplitOn(Then(a, Then(b, Then(c, Then(d, Then(e, f))))), ':') == [a, b, c, d, e, f]
  {
    SplitFree(f, [], ':');
    assert f + [] == f;
    SplitThen(e, f);
    SplitThen(d, Then(e, f));
    SplitThen(c, Then(d, Then(e, f)));
    SplitThen(b, Then(c, Then(d, Then(e, f))));
    SplitThen(a, Then(b, Then(c, Then(d, Then(e, f)))));
  }

  lemma FreeConcat(a: string, b: string)
    requires forall i :: 0 <= i < |a| ==> a[i] != ':'
    requires Free(b, ':')
    ensures Free(a + b, ':')
  {
  }

  /** A leading option free of ':' is split off as the first piece. */
  lemma SplitThen(option: string, rest: string)
    requires Free(option, ':')
    ensures SplitOn(Then(option, rest), ':') == [option] + SplitOn(rest, ':')
  {
    var tail := ":" + rest;
    assert Then(option, rest) == option + tail;
    SplitFree(option, tail, ':');
    var S := SplitOn(tail, ':');
    assert tail != [] && tail[0] == ':' && tail[1..] == rest;
    assert S == [[]] + SplitOn(rest, ':');
    assert S[0] == [] && S[1..] == SplitOn(rest, ':');
    assert option + S[0] == option;
  }

  // ---------------------------------------------------------------------
  // ffmpeg command lines
  // ---------------------------------------------------------------------

  /** `flag` is immediately followed by `value` somewhere in `args`. */
  predicate HasOption(args: seq<string>, flag: string, value: string) {
    exists i :: 0 <= i < |args| - 1 && args[i] == flag && args[i + 1] == value
  }

  /** The analysis run: the safe input, the JSON-printing filter, output discarded. */
  function AnalysisArgs(input: string): seq<string> {
    ["ffmpeg", "-i", SafeInput(input), "-af", AnalysisFilter, "-f", "null", "-"]
  }

  /** The conversion run. */
  function ConvertArgs(input: string, output: string, filter: string): seq<string> {
    ["ffmpeg", "-i", SafeInput(input), "-ac", "1", "-ar", "44100", "-b:a", "64k", "-af", filter, "-y", output]
  }

  /** The conversion always reads the safe input, writes mono 44.1 kHz 64k audio with the given filter, and overwrites. */
  lemma ConvertArgsFixed(input: string, output: string, filter: string)
    ensures var args := ConvertArgs(input, output, filter);
            && args[0] == "ffmpeg" && args[|args| - 1] == output && "-y" in args
            && HasOption(args, "-i", SafeInput(input))
            && HasOption(args, "-ac", "1") && HasOption(args, "-ar", "44100")
            && HasOption(args, "-b:a", "64k") && HasOption(args, "-af", filter)
  {
    var args := ConvertArgs(input, output, filter);
    assert args[1] == "-i" && args[2] == SafeInput(input);
    assert args[3] == "-ac" && args[4] == "1";
    assert args[5] == "-ar" && args[6] == "44100";
    assert args[7] == "-b:a" && args[8] == "64k";
    assert args[9] == "-af" && args[10] == filter;
    assert args[11] == "-y";
  }

  /** The analysis reads the safe input with the JSON-printing filter and writes nothing. */
  lemma AnalysisArgsFixed(input: string)
    ensures var args := AnalysisArgs(input);
            && HasOption(args, "-i", SafeInput(input)) && HasOption(args, "-af", AnalysisFilter)
            && HasOption(args, "-f", "null") && args[|args| - 1] == "-"
  {
    var args := AnalysisArgs(input);
    assert args[1] == "-i" && args[2] == SafeInput(input);
    assert args[3] == "-af" && args[4] == AnalysisFilter;
    assert args[5] == "-f" && args[6] == "null";
  }

  /** `convert_to_mp3` up to running ffmpeg: the command line, or the key whose absence raises. */
  function ConvertCommand(input: string, output: string, analysisOutput: string,
                          parse: string -> Option<map<string, string>>): (r: Result<seq<string>>)
    ensures (forall j :: 0 <= j < |analysisOutput| ==> analysisOutput[j] != '{')
            ==> r == Ok(ConvertArgs(input, output, BaseFilter))
    ensures r.Ok? ==> |r.value| == 13 && HasOption(r.value, "-i", SafeInput(input))
                      && r.value[9] == "-af" && StartsWith(r.value[10], BaseFilter)
    ensures r.Err? <==> var stats := LoudnessStats(analysisOutput, parse);
                        stats.Some? && stats.value != map[] && exists k :: k in StatKeys && k !in stats.value
  {
    match LoudnormFilter(LoudnessStats(analysisOutput, parse))
    case FilterText(f) =>
      ConvertArgsFixed(input, output, f);
      Ok(ConvertArgs(input, output, f))
    case MissingKey(k) => Err(k)
  }

  datatype Result<T> = Ok(value: T) | Err(missing: string)
}
