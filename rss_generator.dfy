// The podcast feed: channel settings, one feed item per stored episode that
// has an audio URL, each with its enclosure, guid, duration and image, and
// the text post-processing that turns the description placeholders into
// CDATA sections.
//
// The XML tree is modelled by the values written into it; serialising it
// to text is not part of this model.

module RssFeed {
  import opened Wrappers
  import opened Strings
  import Collections

  /** Python truthiness of an optional string. */
  predicate Present(s: Option<string>) {
    s.Some? && s.value != []
  }

  // ---------------------------------------------------------------------
  // Durations (`divmod` and `:02d`)
  // ---------------------------------------------------------------------

  /** `m, s = divmod(d, 60); h, m = divmod(m, 60)` (floor division, as in Python). */
  function Hours(d: int): int { d / 60 / 60 }
  function Minutes(d: int): nat { d / 60 % 60 }
  function Seconds(d: int): nat { d % 60 }

  /**
   * `HH:MM:SS` with hours, `MM:SS` without; every field at least two digits.
   * The text written for a non-negative length reads back as that length,
   * and has the hours field exactly from one hour on.
   */
  function FormatDuration(d: int): (r: string)
    ensures d >= 0 ==> ParseDuration(r) == Some(d)
    ensures d >= 0 ==> |SplitOn(r, ':')| == if d >= 3600 then 3 else 2
  {
    if d >= 0 then
      DurationText(d);
      ClockText(Hours(d), Minutes(d), Seconds(d))
    else ClockText(Hours(d), Minutes(d), Seconds(d))
  }

  lemma DurationText(d: int)
    requires d >= 0
    ensures ParseDuration(ClockText(Hours(d), Minutes(d), Seconds(d))) == Some(d)
    ensures |SplitOn(ClockText(Hours(d), Minutes(d), Seconds(d)), ':')| == if d >= 3600 then 3 else 2
  {
    var h, m, s := Hours(d), Minutes(d), Seconds(d);
    DurationParts(d);
    ClockRoundTrip(h, m, s);
    assert h * 3600 + m * 60 + s == d;
  }

  function ClockText(h: int, m: nat, s: nat): string {
    if h > 0 then ZeroPad2(h) + ":" + ZeroPad2(m) + ":" + ZeroPad2(s)
    else ZeroPad2(m) + ":" + ZeroPad2(s)
  }

  /** Reading a duration back: two or three `:`-separated decimal fields. */
  function ParseDuration(t: string): Option<int> {
    var fields := SplitOn(t, ':');
    if |fields| == 3 then FieldsValue(fields[0], fields[1], fields[2])
    else if |fields| == 2 then FieldsValue("0", fields[0], fields[1])
    else None
  }

  /** Hours, minutes and seconds fields, each a run of decimal digits, as seconds. */
  function FieldsValue(h: string, m: string, s: string): Option<int> {
    if AllDigits(h) && AllDigits(m) && AllDigits(s) then
      Some(DecimalValue(h) * 3600 + DecimalValue(m) * 60 + DecimalValue(s))
    else None
  }

  lemma DurationParts(d: int)
    requires d >= 0
    ensures d == Hours(d) * 3600 + Minutes(d) * 60 + Seconds(d)
    ensures Hours(d) > 0 <==> d >= 3600
    ensures Hours(d) >= 0 && Minutes(d) < 60 && Seconds(d) < 60
  {
    var q := d / 60;
    assert d == 60 * q + d % 60;
    assert q == 60 * (q / 60) + q % 60;
  }

  /** The clock text of any field values reads back as the seconds they stand for. */
  lemma ClockRoundTrip(h: int, m: nat, s: nat)
    requires h >= 0
    ensures ParseDuration(ClockText(h, m, s)) == Some(h * 3600 + m * 60 + s)
    ensures |SplitOn(ClockText(h, m, s), ':')| == if h > 0 then 3 else 2
  {
    if h > 0 {
      ClockWithHours(h, m, s);
    } else {
      ClockWithoutHours(m, s);
    }
  }

  lemma ClockWithHours(h: nat, m: nat, s: nat)
    requires h > 0
    ensures ParseDuration(ClockText(h, m, s)) == Some(h * 3600 + m * 60 + s)
    ensures |SplitOn(ClockText(h, m, s), ':')| == 3
  {
    var a, b, c := ZeroPad2(h), ZeroPad2(m), ZeroPad2(s);
    ClockTextFields(h, m, s);
    assert ParseDuration(ClockText(h, m, s)) == FieldsValue(a, b, c);
  }

  lemma ClockTextFields(h: nat, m: nat, s: nat)
    requires h > 0
    ensures SplitOn(ClockText(h, m, s), ':') == [ZeroPad2(h), ZeroPad2(m), ZeroPad2(s)]
  {
    SplitThree(ZeroPad2(h), ZeroPad2(m), ZeroPad2(s));
  }

  lemma ClockWithoutHours(m: nat, s: nat)
    ensures ParseDuration(ClockText(0, m, s)) == Some(m * 60 + s)
    ensures |SplitOn(ClockText(0, m, s), ':')| == 2
  {
    var b, c := ZeroPad2(m), ZeroPad2(s);
    SplitTwo(b, c);
    assert ParseDuration(ClockText(0, m, s)) == FieldsValue("0", b, c);
    ZeroValue();
  }

  lemma ZeroValue()
    ensures AllDigits("0") && DecimalValue("0") == 0
  {
    assert "0"[..0] == [];
  }

  lemma SplitTwo(a: string, b: string)
    requires AllDigits(a) && AllDigits(b)
    ensures SplitOn(a + ":" + b, ':') == [a, b]
  {
    var parts := [a, b];
    assert parts[1..] == [b];
    assert JoinWith(parts, ':') == a + ":" + b;
    SplitJoin(parts, ':');
  }

  lemma SplitThree(a: string, b: string, c: string)
    requires AllDigits(a) && AllDigits(b) && AllDigits(c)
    ensures SplitOn(a + ":" + b + ":" + c, ':') == [a, b, c]
  {
    var parts := [a, b, c];
    assert parts[1..] == [b, c] && parts[1..][1..] == [c];
    assert JoinWith(parts[1..], ':') == b + ":" + c;
    assert JoinWith(parts, ':') == a + ":" + b + ":" + c;
    SplitJoin(parts, ':');
  }

  // ---------------------------------------------------------------------
  // Items
  // ---------------------------------------------------------------------

  /** A stored episode record; a key that is absent is `None`. */
  datatype Episode = Episode(
    s3AudioUrl: Option<string>,
    url: Option<string>,
    title: Option<string>,
    description: Option<string>,
    lengthBytes: Option<nat>,
    id: Option<string>,
    pubDate: Option<string>,
    duration: Option<int>,
    imageUrl: Option<string>)

  /** One `<item>` of the feed, by the values written into it. */
  datatype FeedItem = FeedItem(
    title: string,
    description: string,
    enclosureUrl: string,
    enclosureType: string,
    enclosureLength: string,
    guid: string,
    guidIsPermaLink: string,
    pubDate: string,
    duration: string,
    explicit: string,
    image: Option<string>)

  const CdataStartMarker := "%%CDATA_START%%"
  const CdataEndMarker := "%%CDATA_END%%"

  /** `s3_audio_url or url`: an item needs one of the two. */
  predicate HasAudio(e: Episode) {
    Present(e.s3AudioUrl) || Present(e.url)
  }

  function HasAudioF(): Episode -> bool {
    e => HasAudio(e)
  }

  /** The audio URL, the S3 copy preferred. */
  function AudioUrl(e: Episode): (u: string)
    ensures HasAudio(e) ==> u != []
    ensures Present(e.s3AudioUrl) ==> u == e.s3AudioUrl.value
  {
    if Present(e.s3AudioUrl) then e.s3AudioUrl.value
    else if Present(e.url) then e.url.value
    else ""
  }

  /**
   * The item written for an episode with audio: the description between
   * the two CDATA markers, a length that reads back as the stored byte
   * count (0 when absent), a duration that reads back as the stored one
   * when it is not negative, and an image exactly when the record has a
   * non-empty image URL.
   */
  function ToFeedItem(e: Episode): (it: FeedItem)
    ensures HasAudio(e) ==> it.enclosureUrl != [] && it.enclosureType == "audio/mpeg"
    ensures it.description == CdataStartMarker + e.description.GetOr("") + CdataEndMarker
    ensures AllDigits(it.enclosureLength) && DecimalValue(it.enclosureLength) == e.lengthBytes.GetOr(0)
    ensures e.duration.GetOr(0) >= 0 ==> ParseDuration(it.duration) == Some(e.duration.GetOr(0))
    ensures it.image.Some? <==> Present(e.imageUrl)
    ensures it.image.Some? ==> it.image == e.imageUrl
  {
    var audio := AudioUrl(e);
    DecimalRoundTrip(e.lengthBytes.GetOr(0));
    FeedItem(
      e.title.GetOr("No Title"),
      CdataStartMarker + e.description.GetOr("") + CdataEndMarker,
      audio,
      "audio/mpeg",
      NatToDecimal(e.lengthBytes.GetOr(0)),
      e.id.GetOr(audio),
      "false",
      e.pubDate.GetOr(""),
      FormatDuration(e.duration.GetOr(0)),
      "no",
      if Present(e.imageUrl) then e.imageUrl else None)
  }

  /**
   * The guid is the episode id when the record has one and the audio URL
   * otherwise, never a permalink; the enclosure points at the S3 copy
   * whenever there is one.
   */
  lemma FeedItemDefaults(e: Episode)
    requires HasAudio(e)
    ensures var it := ToFeedItem(e);
            && it.guidIsPermaLink == "false"
            && (e.id.Some? ==> it.guid == e.id.value)
            && (e.id.None? ==> it.guid == it.enclosureUrl && it.guid != [])
            && (Present(e.s3AudioUrl) ==> it.enclosureUrl == e.s3AudioUrl.value)
            && (!Present(e.s3AudioUrl) ==> it.enclosureUrl == e.url.value)
  {
  }

  /** The items of a list of episodes, one each, in order. */
  function Render(es: seq<Episode>): (items: seq<FeedItem>)
    ensures |items| == |es|
  {
    seq(|es|, i requires 0 <= i < |es| => ToFeedItem(es[i]))
  }

  /**
   * The item loop of `generate`: episodes without audio are skipped, the
   * others become items in their input order.
   */
  method RenderItems(episodes: seq<Episode>) returns (items: seq<FeedItem>)
    ensures items == Render(Collections.Filter(episodes, HasAudioF()))
  {
    items := [];
    for i := 0 to |episodes|
      invariant items == Render(Collections.Filter(episodes[..i], HasAudioF()))
    {
      var e := episodes[i];
      RenderStep(episodes[..i], e);
      assert episodes[..i + 1] == episodes[..i] + [e];
      if HasAudio(e) {
        items := items + [ToFeedItem(e)];
      }
    }
    assert episodes[..|episodes|] == episodes;
  }

  /** One more episode adds its item exactly when it has audio. */
  lemma RenderStep(es: seq<Episode>, e: Episode)
    ensures HasAudio(e) ==> Render(Collections.Filter(es + [e], HasAudioF())) == Render(Collections.Filter(es, HasAudioF())) + [ToFeedItem(e)]
    ensures !HasAudio(e) ==> Render(Collections.Filter(es + [e], HasAudioF())) == Render(Collections.Filter(es, HasAudioF()))
  {
    Collections.FilterConcat(es, [e], HasAudioF());
    if HasAudio(e) {
      RenderSnoc(Collections.Filter(es, HasAudioF()), e);
    } else {
      assert Collections.Filter([e], HasAudioF()) == [];
    }
  }

  lemma RenderSnoc(es: seq<Episode>, e: Episode)
    ensures Render(es + [e]) == Render(es) + [ToFeedItem(e)]
  {
  }

  /** Every item comes from an episode with audio, and there is one per such episode. */
  lemma RenderedItemsFromAudio(episodes: seq<Episode>)
    ensures var kept := Collections.Filter(episodes, HasAudioF());
            && |Render(kept)| == Collections.CountIf(episodes, HasAudioF())
            && forall k :: 0 <= k < |kept| ==> kept[k] in episodes && HasAudio(kept[k]) && Render(kept)[k] == ToFeedItem(kept[k])
  {
    Collections.FilterKeeps(episodes, HasAudioF());
  }

  // ---------------------------------------------------------------------
  // Channel
  // ---------------------------------------------------------------------

  /** The `podcast` section of the configuration. */
  datatype PodcastConfig = PodcastConfig(
    title: string, description: string, link: string, language: string,
    author: string, explicit: string, email: string,
    category: string, subcategory: Option<string>, imageUrl: string)

  datatype Channel = Channel(
    config: PodcastConfig,
    subcategory: Option<string>,
    imageHref: string,
    items: seq<FeedItem>)

  /** A relative channel image is served from under the base URL. */
  function ChannelImage(baseUrl: string, image: string): (href: string)
    ensures StartsWith(image, "http") ==> href == image
    ensures !StartsWith(image, "http") ==> href == baseUrl + "/" + image
  {
    if StartsWith(image, "http") then image else baseUrl + "/" + image
  }

  /** Under an absolute base URL the image address is absolute, and prefixing it again changes nothing. */
  lemma ChannelImageIdempotent(baseUrl: string, image: string)
    requires StartsWith(baseUrl, "http")
    ensures StartsWith(ChannelImage(baseUrl, image), "http")
    ensures ChannelImage(baseUrl, ChannelImage(baseUrl, image)) == ChannelImage(baseUrl, image)
  {
    var href := ChannelImage(baseUrl, image);
    if !StartsWith(image, "http") {
      assert href[..4] == baseUrl[..4];
    }
  }

  /**
   * `generate` up to serialisation: the channel settings, the nested
   * subcategory only when one is configured and non-empty, the image
   * address, and the items.
   */
  method Generate(config: PodcastConfig, episodes: seq<Episode>, baseUrl: string) returns (channel: Channel)
    ensures channel.config == config
    ensures channel.subcategory.Some? <==> Present(config.subcategory)
    ensures channel.subcategory.Some? ==> channel.subcategory == config.subcategory
    ensures channel.imageHref == ChannelImage(baseUrl, config.imageUrl)
    ensures channel.items == Render(Collections.Filter(episodes, HasAudioF()))
  {
    var sub := if Present(config.subcategory) then config.subcategory else None;
    var items := RenderItems(episodes);
    channel := Channel(config, sub, ChannelImage(baseUrl, config.imageUrl), items);
  }

  // ---------------------------------------------------------------------
  // CDATA placeholders
  // ---------------------------------------------------------------------

  const CdataOpen := "<![CDATA["
  const CdataClose := "]]>"

  /** The first two replacements applied to the written file. */
  function ReplaceCdataMarkers(content: string): string {
    ReplaceAll(ReplaceAll(content, CdataStartMarker, CdataOpen), CdataEndMarker, CdataClose)
  }

  /** No two consecutive `%`: the text cannot hold the start of either marker. */
  predicate NoDoublePercent(s: string) {
    forall i :: 0 <= i < |s| - 1 ==> !(s[i] == '%' && s[i + 1] == '%')
  }

  /**
   * A description written between the markers comes out as a CDATA
   * section, provided its escaped text never has two `%` in a row; a
   * single `%`, as in "100%", is carried through.
   */
  lemma CdataMarkersReplaced(desc: string)
    requires NoDoublePercent(desc)
    ensures ReplaceCdataMarkers(CdataStartMarker + desc + CdataEndMarker) == CdataOpen + desc + CdataClose
  {
    StartMarkerReplaced(desc);
    NoDoublePercentAfter(CdataOpen, desc);
    EndMarkerReplaced(CdataOpen + desc);
  }

  lemma StartMarkerReplaced(desc: string)
    requires NoDoublePercent(desc)
    ensures ReplaceAll(CdataStartMarker + desc + CdataEndMarker, CdataStartMarker, CdataOpen) == CdataOpen + desc + CdataEndMarker
  {
    var rest := desc + CdataEndMarker;
    assert CdataStartMarker + desc + CdataEndMarker == [] + CdataStartMarker + rest;
    ReplaceAllSplit([], CdataStartMarker, rest, CdataOpen);
    NoStartMarkerBeforeEnd(desc);
    ReplaceAllNoMatch(rest, CdataStartMarker, CdataOpen);
    assert CdataOpen + rest == CdataOpen + desc + CdataEndMarker;
  }

  /** After the start marker, the description and the end marker hold no second start marker. */
  lemma NoStartMarkerBeforeEnd(desc: string)
    requires NoDoublePercent(desc)
    ensures forall i :: 0 <= i <= |desc + CdataEndMarker| - |CdataStartMarker| ==> !OccursAt(desc + CdataEndMarker, CdataStartMarker, i)
  {
    NoMarkerStartsIn(desc, CdataStartMarker, CdataEndMarker);
    forall i | 0 <= i <= |desc + CdataEndMarker| - |CdataStartMarker|
      ensures !OccursAt(desc + CdataEndMarker, CdataStartMarker, i)
    {
      assert i < |desc|;
    }
  }

  lemma EndMarkerReplaced(front: string)
    requires NoDoublePercent(front)
    ensures ReplaceAll(front + CdataEndMarker, CdataEndMarker, CdataClose) == front + CdataClose
  {
    assert front + CdataEndMarker == front + CdataEndMarker + [];
    NoMarkerStartsIn(front, CdataEndMarker, CdataEndMarker);
    ReplaceAllSplit(front, CdataEndMarker, [], CdataClose);
    assert front + CdataClose + [] == front + CdataClose;
  }

  /**
   * A marker (`%%` and then a letter) cannot start inside a text without
   * `%%`, even when the text is followed by another `%%`.
   */
  lemma NoMarkerStartsIn(front: string, pat: string, tail: string)
    requires |pat| >= 3 && pat[0] == '%' && pat[1] == '%' && pat[2] != '%'
    requires NoDoublePercent(front)
    requires |tail| < 2 || tail[1] == '%'
    ensures forall i :: 0 <= i < |front| ==> !OccursAt(front + tail, pat, i)
  {
    forall i | 0 <= i < |front|
      ensures !OccursAt(front + tail, pat, i)
    {
      NoMarkerAt(front, tail, pat, i);
    }
  }

  lemma NoMarkerAt(front: string, tail: string, pat: string, i: nat)
    requires |pat| >= 3 && pat[0] == '%' && pat[1] == '%' && pat[2] != '%'
    requires NoDoublePercent(front)
    requires |tail| < 2 || tail[1] == '%'
    requires i < |front|
    ensures !OccursAt(front + tail, pat, i)
  {
    var s := front + tail;
    if i + |pat| <= |s| {
      var w := s[i..i + |pat|];
      assert w[0] == s[i] && w[1] == s[i + 1] && w[2] == s[i + 2];
      if i + 1 < |front| {
        assert s[i] == front[i] && s[i + 1] == front[i + 1];
      } else {
        assert s[i + 1] == tail[0] && s[i + 2] == tail[1];
      }
    }
  }

  /** A prefix without `%` adds no pair of `%`. */
  lemma NoDoublePercentAfter(pre: string, s: string)
    requires forall i :: 0 <= i < |pre| ==> pre[i] != '%'
    requires NoDoublePercent(s)
    ensures NoDoublePercent(pre + s)
  {
    var t := pre + s;
    forall i | 0 <= i < |t| - 1
      ensures !(t[i] == '%' && t[i + 1] == '%')
    {
      if i >= |pre| {
        assert t[i] == s[i - |pre|] && t[i + 1] == s[i - |pre| + 1];
      }
    }
  }
}
