// Metadata generation through the language model: the prompt built from
// the template, the clean-up of the reply before JSON parsing, and the
// classification of failures into rate-limit errors and other generation
// errors.
//
// The model call and the JSON parser are parameters: the call maps the
// prompt text to what the client returned or the message of what it
// raised, and the parser maps text to a value or the message of its error.

module AiManager {
  import opened Wrappers
  import opened Strings

  const VideoUrlPlaceholder := "{video_url}"
  const JsonFenceOpen := "```json"
  const FenceClose := "```"

  /** What the client call produced: the reply text (`None` when absent) or the message of an exception. */
  datatype CallResult = Returned(text: Option<string>) | Raised(message: string)

  datatype ParseResult<J> = Parsed(value: J) | ParseFailed(message: string)

  /**
   * The two exception classes: `RateLimit` is `AIRateLimitError`, which
   * is itself an `AIGenerationError`; `Generation` is any other
   * `AIGenerationError`.
   */
  datatype ErrorKind = RateLimit | Generation

  /** The outcome of `generate_metadata`: `None`, the parsed reply, or a raised error. */
  datatype Generated<J> = NoMetadata | Metadata(value: J) | Error(kind: ErrorKind, message: string)

  /** An `except AIGenerationError` clause catches both kinds. */
  predicate IsGenerationError<J>(g: Generated<J>) {
    g.Error?
  }

  /** `except AIRateLimitError` catches only the rate-limit kind. */
  predicate IsRateLimitError<J>(g: Generated<J>) {
    g.Error? && g.kind == RateLimit
  }

  /**
   * Every `{video_url}` of the template becomes the URL; a template without
   * the placeholder is sent unchanged.
   */
  function PromptText(template: string, url: string): (prompt: string)
    ensures !Contains(template, VideoUrlPlaceholder) ==> prompt == template
  {
    if Contains(template, VideoUrlPlaceholder) then ReplaceAll(template, VideoUrlPlaceholder, url)
    else
      ReplaceAllNoMatch(template, VideoUrlPlaceholder, url);
      ReplaceAll(template, VideoUrlPlaceholder, url)
  }

  /**
   * The first placeholder of the template is replaced by the URL, the text
   * before it is kept, and the rest is substituted in turn.
   */
  lemma PromptSubstitutes(before: string, after: string, url: string)
    requires forall i :: 0 <= i < |before| ==> !OccursAt(before + VideoUrlPlaceholder + after, VideoUrlPlaceholder, i)
    ensures PromptText(before + VideoUrlPlaceholder + after, url) == before + url + PromptText(after, url)
  {
    ReplaceAllSplit(before, VideoUrlPlaceholder, after, url);
  }

  /** Strip, drop a leading "```json" and strip, drop a trailing "```" and strip. */
  function CleanReply(text: string): (r: string)
    ensures r != [] ==> !IsSpace(r[0]) && !IsSpace(r[|r| - 1])
    ensures |r| <= |text|
  {
    StripFences(Trim(text))
  }

  /** The steps after the first strip. */
  function StripFences(t: string): (r: string)
    requires t != [] ==> !IsSpace(t[0]) && !IsSpace(t[|t| - 1])
    ensures r != [] ==> !IsSpace(r[0]) && !IsSpace(r[|r| - 1])
    ensures |r| <= |t|
    ensures !StartsWith(t, JsonFenceOpen) && !EndsWith(t, FenceClose) ==> r == t
  {
    var u := if StartsWith(t, JsonFenceOpen) then Trim(t[|JsonFenceOpen|..]) else t;
    if EndsWith(u, FenceClose) then Trim(u[..|u| - |FenceClose|]) else u
  }

  /** A reply that is already bare JSON text passes through unchanged. */
  lemma CleanBareReply(body: string)
    requires body != [] && !IsSpace(body[0]) && !IsSpace(body[|body| - 1])
    requires !StartsWith(body, JsonFenceOpen) && !EndsWith(body, FenceClose)
    ensures CleanReply(body) == body
  {
    TrimmedIsFixed(body);
  }

  /** A fenced reply gives back its body, whatever white space surrounds it. */
  lemma CleanFencedReply(body: string, pre: string, post: string)
    requires body != [] ==> !IsSpace(body[0]) && !IsSpace(body[|body| - 1])
    requires !EndsWith(body, FenceClose)
    requires forall i :: 0 <= i < |pre| ==> IsSpace(pre[i])
    requires forall i :: 0 <= i < |post| ==> IsSpace(post[i])
    ensures CleanReply(pre + JsonFenceOpen + body + FenceClose + post) == body
  {
    var fenced := JsonFenceOpen + body + FenceClose;
    assert fenced[0] == '`' && fenced[|fenced| - 1] == '`';
    assert pre + JsonFenceOpen + body + FenceClose + post == pre + fenced + post;
    TrimAround(pre, fenced, post);
    StripFenced(body);
  }

  lemma StripFenced(body: string)
    requires body != [] ==> !IsSpace(body[0]) && !IsSpace(body[|body| - 1])
    requires !EndsWith(body, FenceClose)
    ensures StripFences(JsonFenceOpen + body + FenceClose) == body
  {
    OpenFenceStripped(body);
    CloseFenceStripped(body);
  }

  lemma OpenFenceStripped(body: string)
    requires body != [] ==> !IsSpace(body[0]) && !IsSpace(body[|body| - 1])
    ensures var fenced := JsonFenceOpen + body + FenceClose;
            StartsWith(fenced, JsonFenceOpen) && Trim(fenced[|JsonFenceOpen|..]) == body + FenceClose
  {
    var inner := body + FenceClose;
    assert JsonFenceOpen + body + FenceClose == JsonFenceOpen + inner;
    assert inner[|inner| - 1] == '`';
    assert inner[0] == if body == [] then '`' else body[0];
    TrimmedIsFixed(inner);
  }

  lemma CloseFenceStripped(body: string)
    requires body != [] ==> !IsSpace(body[0]) && !IsSpace(body[|body| - 1])
    ensures var inner := body + FenceClose;
            EndsWith(inner, FenceClose) && Trim(inner[..|inner| - |FenceClose|]) == body
  {
    var inner := body + FenceClose;
    assert inner[..|inner| - |FenceClose|] == body;
    TrimmedIsFixed(body);
  }

  /** White space around a string whose ends are not white space is what trimming removes. */
  lemma TrimAround(pre: string, s: string, post: string)
    requires s != [] && !IsSpace(s[0]) && !IsSpace(s[|s| - 1])
    requires forall i :: 0 <= i < |pre| ==> IsSpace(pre[i])
    requires forall i :: 0 <= i < |post| ==> IsSpace(post[i])
    ensures Trim(pre + s + post) == s
  {
    var w := pre + s + post;
    TrimStartDrops(pre, s + post);
    assert w == pre + (s + post);
    TrimEndDrops(s, post);
  }

  lemma {:induction false} TrimStartDrops(pre: string, rest: string)
    requires rest != [] && !IsSpace(rest[0])
    requires forall i :: 0 <= i < |pre| ==> IsSpace(pre[i])
    ensures TrimStart(pre + rest) == rest
    decreases |pre|
  {
    if pre != [] {
      var w := pre + rest;
      assert w[0] == pre[0] && IsSpace(w[0]);
      assert w[1..] == pre[1..] + rest;
      assert TrimStart(w) == TrimStart(w[1..]);
      TrimStartDrops(pre[1..], rest);
    } else {
      assert pre + rest == rest;
    }
  }

  lemma {:induction false} TrimEndDrops(s: string, post: string)
    requires s != [] && !IsSpace(s[|s| - 1])
    requires forall i :: 0 <= i < |post| ==> IsSpace(post[i])
    ensures TrimEnd(s + post) == s
    decreases |post|
  {
    if post != [] {
      var shorter := post[..|post| - 1];
      assert (s + post)[..|s + post| - 1] == s + shorter;
      TrimEndDrops(s, shorter);
    } else {
      assert s + post == s;
    }
  }

  /** `"429" in msg or "rate limit" in msg`, on the lower-cased message. */
  function Classify(message: string): (k: ErrorKind)
    ensures k == RateLimit <==> Contains(Lower(message), "429") || Contains(Lower(message), "rate limit")
  {
    var m := Lower(message);
    if Contains(m, "429") || Contains(m, "rate limit") then RateLimit else Generation
  }

  /** Upper-case letters in the message do not hide a rate limit. */
  lemma ClassifyIgnoresCase(message: string)
    ensures Classify(Lower(message)) == Classify(message)
  {
    LowerIdempotent(message);
  }

  function ErrorPrefix(kind: ErrorKind): string {
    match kind
    case RateLimit => "AI Rate limit reached: "
    case Generation => "AI Generation failed: "
  }

  /** The message of the raised error: the class's prefix followed by the original message. */
  function ErrorMessage(kind: ErrorKind, message: string): (r: string)
    ensures StartsWith(r, ErrorPrefix(kind)) && r[|ErrorPrefix(kind)|..] == message
  {
    ErrorPrefix(kind) + message
  }

  /**
   * `generate_metadata`: an empty template gives `None` at once; an absent
   * or empty reply gives `None`; a reply is cleaned and parsed; an
   * exception from the call or from parsing is classified by its message.
   */
  function GenerateMetadata<J>(template: string, url: string, call: string -> CallResult, parse: string -> ParseResult<J>): (g: Generated<J>)
    ensures template == [] ==> g == NoMetadata
    ensures g.Metadata? ==> template != [] && call(PromptText(template, url)).Returned?
    ensures g.Error? ==> StartsWith(g.message, ErrorPrefix(g.kind))
    ensures template != [] && call(PromptText(template, url)).Raised? ==>
              var m := call(PromptText(template, url)).message;
              g.Error? && g.kind == Classify(m) && g.message[|ErrorPrefix(g.kind)|..] == m
    ensures template != [] && call(PromptText(template, url)).Returned? ==>
              var text := call(PromptText(template, url)).text;
              (text.None? || text.value == [] ==> g == NoMetadata)
              && (text.Some? && text.value != [] ==>
                    match parse(CleanReply(text.value))
                    case Parsed(v) => g == Metadata(v)
                    case ParseFailed(m) => g.Error? && g.kind == Classify(m) && g.message[|ErrorPrefix(g.kind)|..] == m)
  {
    if template == [] then NoMetadata
    else
      match call(PromptText(template, url))
      case Raised(m) => Error(Classify(m), ErrorMessage(Classify(m), m))
      case Returned(text) =>
        if text.None? || text.value == [] then NoMetadata
        else
          match parse(CleanReply(text.value))
          case Parsed(v) => Metadata(v)
          case ParseFailed(m) => Error(Classify(m), ErrorMessage(Classify(m), m))
  }

  /** A fenced reply is parsed from its body alone: the body's parse decides the outcome. */
  lemma FencedReplyParsesBody<J>(template: string, url: string, call: string -> CallResult, parse: string -> ParseResult<J>,
                                 body: string, pre: string, post: string)
    requires template != []
    requires call(PromptText(template, url)) == Returned(Some(pre + JsonFenceOpen + body + FenceClose + post))
    requires body != [] ==> !IsSpace(body[0]) && !IsSpace(body[|body| - 1])
    requires !EndsWith(body, FenceClose)
    requires forall i :: 0 <= i < |pre| ==> IsSpace(pre[i])
    requires forall i :: 0 <= i < |post| ==> IsSpace(post[i])
    ensures var g := GenerateMetadata(template, url, call, parse);
            match parse(body)
            case Parsed(v) => g == Metadata(v)
            case ParseFailed(m) => g.Error? && g.kind == Classify(m) && g.message[|ErrorPrefix(g.kind)|..] == m
  {
    CleanFencedReply(body, pre, post);
  }

  /** With an empty template the client is never consulted: any two clients give the same answer. */
  lemma EmptyTemplateSkipsCall<J>(url: string, call1: string -> CallResult, call2: string -> CallResult, parse: string -> ParseResult<J>)
    ensures GenerateMetadata("", url, call1, parse) == GenerateMetadata("", url, call2, parse) == NoMetadata
  {
  }

  /** A failure is a rate-limit error exactly when its message says so. */
  lemma RaisedIsClassified<J>(template: string, url: string, call: string -> CallResult, parse: string -> ParseResult<J>)
    requires template != [] && call(PromptText(template, url)).Raised?
    ensures var m := call(PromptText(template, url)).message;
            var g := GenerateMetadata(template, url, call, parse);
            IsGenerationError(g) && (IsRateLimitError(g) <==> Contains(Lower(m), "429") || Contains(Lower(m), "rate limit"))
  {
  }

  /** An absent or empty reply never reaches the parser. */
  lemma EmptyReplyIsNone<J>(template: string, url: string, call: string -> CallResult, parse: string -> ParseResult<J>)
    requires template != []
    requires call(PromptText(template, url)) in {Returned(None), Returned(Some(""))}
    ensures GenerateMetadata(template, url, call, parse) == NoMetadata
  {
  }
}
