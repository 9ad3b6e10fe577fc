// One preacher's sync run: the channel list and the video entries read from
// it, the sequential loop that hands videos to processing until a rate limit
// or the AI rate-limit flag stops it, the skip rule of a single video task,
// and the feed refresh that regenerates descriptions, orders the stored
// records newest first and drops the ones flagged as unsuitable.
//
// Everything the run learns from outside (the channel listings, whether a
// video's record is already stored, how its download and processing end,
// the clock, the stored records) is a parameter.

module Sync {
  import opened Wrappers
  import Collections
  import Sorting
  import RateLimits

  /** Python truthiness of an optional string. */
  predicate Truthy(s: Option<string>) {
    s.Some? && s.value != []
  }

  // ---------------------------------------------------------------------
  // Channels and entries
  // ---------------------------------------------------------------------

  /** A flat entry of a channel listing; a key the entry lacks is `None`. */
  datatype Entry = Entry(id: Option<string>, url: Option<string>, title: Option<string>)

  /** A video queued for processing. */
  datatype VideoItem = VideoItem(id: string, url: string, title: Option<string>)

  const WatchUrlPrefix := "https://www.youtube.com/watch?v="

  /** The configured channels: the list when it is non-empty, else the single URL. */
  function ChannelUrls(urls: Option<seq<Option<string>>>, single: Option<string>): (r: seq<Option<string>>)
    ensures r != []
    ensures urls.Some? && urls.value != [] ==> r == urls.value
    ensures urls.None? || urls.value == [] ==> r == [single]
  {
    if urls.Some? && urls.value != [] then urls.value else [single]
  }

  /** An entry is queued when it is present and has an id. */
  predicate Queued(e: Option<Entry>) {
    e.Some? && e.value.id.Some?
  }

  /** The queued video of an entry: its own URL when it has one, else the watch URL of its id. */
  function ToVideoItem(e: Entry): (v: VideoItem)
    requires e.id.Some?
    ensures v.id == e.id.value && v.title == e.title && v.url != []
    ensures Truthy(e.url) ==> v.url == e.url.value
    ensures !Truthy(e.url) ==> v.url == WatchUrlPrefix + e.id.value
  {
    VideoItem(e.id.value, if Truthy(e.url) then e.url.value else WatchUrlPrefix + e.id.value, e.title)
  }

  /** The videos one listing contributes, in listing order. */
  function EntryItems(entries: seq<Option<Entry>>): (items: seq<VideoItem>)
    ensures |items| == Collections.CountIf(entries, Queued)
    ensures forall i :: 0 <= i < |items| ==> items[i].url != []
  {
    var kept := Collections.Filter(entries, Queued);
    Collections.FilterKeeps(entries, Queued);
    seq(|kept|, i requires 0 <= i < |kept| => ToVideoItem(kept[i].value))
  }

  /** The i-th item is the video of the i-th queued entry: listing order is kept and nothing else is added. */
  lemma EntryItemsOfQueued(entries: seq<Option<Entry>>)
    ensures var kept := Collections.Filter(entries, Queued);
            && |EntryItems(entries)| == |kept|
            && forall i :: 0 <= i < |kept| ==> Queued(kept[i]) && EntryItems(entries)[i] == ToVideoItem(kept[i].value)
  {
    Collections.FilterKeeps(entries, Queued);
  }

  /**
   * The videos gathered from a channel list: a falsy URL is skipped, and so
   * is a channel whose listing could not be read (`None`). Every gathered
   * video has a URL to download from.
   */
  function Gathered(urls: seq<Option<string>>, fetch: string -> Option<seq<Option<Entry>>>): (items: seq<VideoItem>)
    ensures forall i :: 0 <= i < |items| ==> items[i].url != []
  {
    Collections.FlatMapAll(urls, ChannelItemsOf(fetch), HasUrl);
    Collections.FlatMap(urls, ChannelItemsOf(fetch))
  }

  /** A video with a URL to download from. */
  function HasUrl(v: VideoItem): bool { v.url != [] }

  function ChannelItemsOf(fetch: string -> Option<seq<Option<Entry>>>): Option<string> -> seq<VideoItem> {
    u => ChannelItems(u, fetch)
  }

  /** The videos of one channel URL: none for a falsy URL or an unreadable listing. */
  function ChannelItems(url: Option<string>, fetch: string -> Option<seq<Option<Entry>>>): seq<VideoItem> {
    if Truthy(url) && fetch(url.value).Some? then EntryItems(fetch(url.value).value) else []
  }

  /** Skipping the falsy URLs beforehand changes nothing. */
  lemma {:induction false} GatheredIgnoresFalsy(urls: seq<Option<string>>, fetch: string -> Option<seq<Option<Entry>>>)
    ensures Gathered(Collections.Filter(urls, Truthy), fetch) == Gathered(urls, fetch)
    decreases |urls|
  {
    if urls != [] {
      GatheredIgnoresFalsy(urls[1..], fetch);
    }
  }

  lemma GatheredSnoc(urls: seq<Option<string>>, u: Option<string>, fetch: string -> Option<seq<Option<Entry>>>)
    ensures Gathered(urls + [u], fetch) == Gathered(urls, fetch) + ChannelItems(u, fetch)
  {
    Collections.FlatMapSnoc(urls, u, ChannelItemsOf(fetch));
  }

  /** The fetch loop of `sync`: channel by channel, in order. */
  method CollectVideoItems(urls: seq<Option<string>>, fetch: string -> Option<seq<Option<Entry>>>) returns (items: seq<VideoItem>)
    ensures items == Gathered(urls, fetch)
  {
    items := [];
    for i := 0 to |urls|
      invariant items == Gathered(urls[..i], fetch)
    {
      assert urls[..i + 1] == urls[..i] + [urls[i]];
      GatheredSnoc(urls[..i], urls[i], fetch);
      var url := urls[i];
      if !Truthy(url) {
        continue;
      }
      var listing := fetch(url.value);
      if listing.Some? {
        items := items + EntryItems(listing.value);
      }
    }
    assert urls[..|urls|] == urls;
  }

  // ---------------------------------------------------------------------
  // The sync loop
  // ---------------------------------------------------------------------

  /**
   * How `download_and_process` and `save_metadata` end for a video: the
   * record is saved, something raised, or the AI call hit its rate limit
   * (which raises after setting the flag).
   */
  datatype Outcome = Saved | Failed | AiRateLimited

  /** What the outside world answers for one queued video, read at clock time `now`. */
  datatype Attempt = Attempt(item: VideoItem, alreadyStored: bool, outcome: Outcome, now: int)

  /** The state the loop reads and changes: the limiter's sync fields and the AI flag. */
  datatype Progress = Progress(synced: int, lastSync: Option<int>, aiLimited: bool)

  /** A video whose task counts a success: not stored before and saved now. */
  predicate Records(a: Attempt) {
    !a.alreadyStored && a.outcome == Saved
  }

  /** `process_video_task`: a stored record skips everything; only a saved record counts a success. */
  function Step(p: Progress, a: Attempt): (q: Progress)
    ensures a.alreadyStored ==> q == p
    ensures q.synced == p.synced + (if Records(a) then 1 else 0)
    ensures q.lastSync == if Records(a) then Some(a.now) else p.lastSync
    ensures q.aiLimited <==> p.aiLimited || (!a.alreadyStored && a.outcome == AiRateLimited)
  {
    if a.alreadyStored then p
    else
      match a.outcome
      case Saved => Progress(p.synced + 1, Some(a.now), p.aiLimited)
      case Failed => p
      case AiRateLimited => p.(aiLimited := true)
  }

  /** The loop's three reasons to stop before a video. */
  predicate Stops(max: int, p: Progress, now: int) {
    !(p.synced < max) || !RateLimits.PeriodicCheck(max, p.lastSync, now).Go? || p.aiLimited
  }

  datatype RunResult = RunResult(handled: nat, final: Progress)

  /** The videos are handled in order until the first one before which the loop stops. */
  function Run(max: int, p: Progress, attempts: seq<Attempt>): (r: RunResult)
    ensures r.handled <= |attempts|
    decreases |attempts|
  {
    if attempts == [] || Stops(max, p, attempts[0].now) then RunResult(0, p)
    else
      var rest := Run(max, Step(p, attempts[0]), attempts[1..]);
      RunResult(rest.handled + 1, rest.final)
  }

  /** When the loop ends early, one of its stop conditions holds for the first video left. */
  lemma {:induction false} RunStopsAtFirstBlocked(max: int, p: Progress, attempts: seq<Attempt>)
    ensures var r := Run(max, p, attempts);
            r.handled < |attempts| ==> Stops(max, r.final, attempts[r.handled].now)
    decreases |attempts|
  {
    if attempts != [] && !Stops(max, p, attempts[0].now) {
      RunStopsAtFirstBlocked(max, Step(p, attempts[0]), attempts[1..]);
    }
  }

  /** The successes counted are exactly the handled videos whose record was saved. */
  lemma {:induction false} RunCountsSuccesses(max: int, p: Progress, attempts: seq<Attempt>)
    ensures var r := Run(max, p, attempts);
            r.final.synced == p.synced + Collections.CountIf(attempts[..r.handled], Records)
    decreases |attempts|
  {
    var r := Run(max, p, attempts);
    if attempts == [] || Stops(max, p, attempts[0].now) {
      assert attempts[..0] == [];
    } else {
      var tail := attempts[1..];
      RunCountsSuccesses(max, Step(p, attempts[0]), tail);
      var h := Run(max, Step(p, attempts[0]), tail).handled;
      assert attempts[..r.handled] == [attempts[0]] + tail[..h];
      assert ([attempts[0]] + tail[..h])[1..] == tail[..h];
    }
  }

  /** A run that starts within the daily quota never exceeds it. */
  lemma {:induction false} RunRespectsQuota(max: int, p: Progress, attempts: seq<Attempt>)
    requires p.synced <= max
    ensures Run(max, p, attempts).final.synced <= max
    decreases |attempts|
  {
    if attempts != [] && !Stops(max, p, attempts[0].now) {
      RunRespectsQuota(max, Step(p, attempts[0]), attempts[1..]);
    }
  }

  /** A video that hits the AI rate limit is the last one handled. */
  lemma {:induction false} AiLimitEndsRun(max: int, p: Progress, attempts: seq<Attempt>, i: nat)
    requires i < Run(max, p, attempts).handled
    requires !attempts[i].alreadyStored && attempts[i].outcome == AiRateLimited
    ensures Run(max, p, attempts).handled == i + 1
    decreases |attempts|
  {
    var q := Step(p, attempts[0]);
    if i == 0 {
      assert q.aiLimited;
      if |attempts| > 1 {
        assert Stops(max, q, attempts[1..][0].now);
      }
    } else {
      AiLimitEndsRun(max, q, attempts[1..], i - 1);
    }
  }

  /**
   * With a positive quota, two successive handled videos of which the first
   * counted a success are at least one period (`86400 / max` seconds)
   * apart on the clock.
   */
  lemma {:induction false} SuccessesAreSpaced(max: int, p: Progress, attempts: seq<Attempt>, i: nat)
    requires max > 0
    requires i + 1 < Run(max, p, attempts).handled && Records(attempts[i])
    ensures (attempts[i + 1].now - attempts[i].now) as real >= RateLimits.Period(max)
    decreases |attempts|
  {
    var q := Step(p, attempts[0]);
    if i == 0 {
      assert q.lastSync == Some(attempts[0].now);
      assert !Stops(max, q, attempts[1..][0].now);
    } else {
      SuccessesAreSpaced(max, q, attempts[1..], i - 1);
    }
  }

  /**
   * `PodcastSync`, one preacher's syncer: the rate limiter it consults and
   * the flag the AI step raises. Counters, the channel configuration and the storage client
   * are not part of this model.
   */
  class PodcastSync {
    const limiter: RateLimits.RateLimiter
    var aiRateLimited: bool

    constructor (limiter: RateLimits.RateLimiter)
      ensures this.limiter == limiter && !aiRateLimited
    {
      this.limiter := limiter;
      aiRateLimited := false;
    }

    function Current(): Progress
      reads this, limiter
    {
      Progress(limiter.videosSyncedToday, limiter.lastSyncTime, aiRateLimited)
    }

    /**
     * `process_video_task`: nothing happens for a video already stored;
     * otherwise a saved record counts a success and an AI rate limit sets
     * the flag. The day and the AI fields of the limiter are untouched.
     */
    method ProcessVideoTask(a: Attempt)
      modifies this, limiter
      ensures Current() == Step(old(Current()), a)
      ensures limiter.lastSyncDate == old(limiter.lastSyncDate)
      ensures limiter.aiCallsToday == old(limiter.aiCallsToday) && limiter.lastAiCallTime == old(limiter.lastAiCallTime)
    {
      if a.alreadyStored {
        return;
      }
      match a.outcome
      case Saved =>
        limiter.RecordSuccess(a.now);
      case Failed =>
      case AiRateLimited =>
        aiRateLimited := true;
    }

    /**
     * The processing loop of `sync`: each video is checked against the
     * daily quota, the periodic limit and the AI flag, in that order, and
     * the first failed check ends the loop. Returns how many videos were
     * handed to `process_video_task`.
     */
    method SyncVideos(attempts: seq<Attempt>) returns (handled: nat)
      modifies this, limiter
      ensures var r := Run(limiter.maxPerDay, old(Current()), attempts);
              handled == r.handled && Current() == r.final
      ensures limiter.lastSyncDate == old(limiter.lastSyncDate)
      ensures limiter.aiCallsToday == old(limiter.aiCallsToday) && limiter.lastAiCallTime == old(limiter.lastAiCallTime)
    {
      var max := limiter.maxPerDay;
      ghost var start := Current();
      var i := 0;
      while i < |attempts|
        invariant 0 <= i <= |attempts|
        invariant Run(max, start, attempts) == RunResult(i + Run(max, Current(), attempts[i..]).handled, Run(max, Current(), attempts[i..]).final)
        invariant limiter.lastSyncDate == old(limiter.lastSyncDate)
        invariant limiter.aiCallsToday == old(limiter.aiCallsToday) && limiter.lastAiCallTime == old(limiter.lastAiCallTime)
      {
        var a := attempts[i];
        if !limiter.CanSyncDaily() {
          break;
        }
        var periodic := limiter.CanSyncPeriodic(a.now);
        if !periodic.Go? {
          break;
        }
        if aiRateLimited {
          break;
        }
        assert attempts[i..][1..] == attempts[i + 1..];
        ProcessVideoTask(a);
        i := i + 1;
      }
      handled := i;
    }
  }

  // ---------------------------------------------------------------------
  // Feed refresh
  // ---------------------------------------------------------------------

  /** The `ai_response` part of a stored record. */
  datatype AiData = AiData(podcastFriendly: Option<bool>, description: Option<string>)

  /**
   * A stored metadata record, by the keys the refresh reads. `pubDate` is
   * the publication time in seconds, `None` when the key is missing or its
   * text does not parse.
   */
  datatype Record = Record(
    title: Option<string>,
    originalTitle: Option<string>,
    originalUrl: Option<string>,
    pubDate: Option<int>,
    titleMatch: Option<bool>,
    ai: Option<AiData>,
    description: Option<string>)

  /** The configured description template applied to title, original URL and original title. */
  type Template = (Option<string>, Option<string>, Option<string>) -> string

  const AiSeparator := "<br /><br />"

  /** The AI description, when it is non-empty, follows the template text after a double line break. */
  function WithAiDescription(base: string, ai: Option<AiData>): (r: string)
    ensures |r| >= |base| && r[..|base|] == base
    ensures |r| > |base| <==> ai.Some? && Truthy(ai.value.description)
    ensures |r| > |base| ==> r[|base|..] == AiSeparator + ai.value.description.value
  {
    if ai.Some? && Truthy(ai.value.description) then base + AiSeparator + ai.value.description.value else base
  }

  /** `original_title or title`. */
  function OriginalTitle(r: Record): Option<string> {
    if Truthy(r.originalTitle) then r.originalTitle else r.title
  }

  /**
   * Regenerates a record's description from the current template; without
   * a template (the `KeyError` the code catches) the record stays as it is.
   */
  function Regenerate(r: Record, template: Option<Template>): (q: Record)
    ensures q.(description := r.description) == r
    ensures template.Some? ==> q.description == Some(WithAiDescription(template.value(r.title, r.originalUrl, OriginalTitle(r)), r.ai))
  {
    if template.None? then r
    else r.(description := Some(WithAiDescription(template.value(r.title, r.originalUrl, OriginalTitle(r)), r.ai)))
  }

  /** The records the refresh starts from: every present record, regenerated, in storage order. */
  function Collected(stored: seq<Option<Record>>, template: Option<Template>): (items: seq<Record>)
    ensures |items| == Collections.CountIf(stored, IsPresent)
  {
    if stored == [] then []
    else if stored[0].Some? then [Regenerate(stored[0].value, template)] + Collected(stored[1..], template)
    else Collected(stored[1..], template)
  }

  /** `if res:` — a missing or empty record is `None`. */
  predicate IsPresent(r: Option<Record>) {
    r.Some?
  }

  lemma CollectedSnoc(stored: seq<Option<Record>>, r: Option<Record>, template: Option<Template>)
    ensures Collected(stored + [r], template) == Collected(stored, template) + (if r.Some? then [Regenerate(r.value, template)] else [])
    decreases |stored|
  {
    if stored == [] {
      assert [r][1..] == [];
    } else {
      assert (stored + [r])[1..] == stored[1..] + [r];
      CollectedSnoc(stored[1..], r, template);
    }
  }

  /** The flag a record carries: `ai_response.podcast_friendly`, missing when there is no AI response. */
  function Friendly(r: Record): Option<bool> {
    if r.ai.Some? then r.ai.value.podcastFriendly else None
  }

  /** A record stays in the feed unless it is flagged unfriendly or as a title mismatch. */
  predicate Keep(r: Record) {
    Friendly(r) != Some(false) && r.titleMatch != Some(false)
  }

  predicate Dropped(r: Record) {
    !Keep(r)
  }

  /** A record with neither flag, or with both set to true, is kept. */
  lemma KeepByDefault(r: Record)
    requires Friendly(r) in {None, Some(true)} && r.titleMatch in {None, Some(true)}
    ensures Keep(r)
  {
  }

  /** Regenerating the description does not change whether a record is kept or where it sorts. */
  lemma RegenerateKeepsFlags(r: Record, template: Option<Template>)
    ensures Keep(Regenerate(r, template)) == Keep(r)
    ensures Regenerate(r, template).pubDate == r.pubDate
  {
    var q := Regenerate(r, template);
    assert q.(description := r.description) == r;
    assert Friendly(q) == Friendly(r);
  }

  /**
   * The sort key order, newest first: `x` may precede `y` when `y` has no
   * parseable date (the minimum date) or both have dates and `x`'s is not
   * earlier.
   */
  predicate AtLeastAsNew(x: Record, y: Record) {
    match y.pubDate
    case None => true
    case Some(t) => x.pubDate.Some? && x.pubDate.value >= t
  }

  predicate AnyRecord(r: Record) {
    true
  }

  lemma NewestFirstIsPreorder()
    ensures Sorting.TotalPreorder(AnyRecord, AtLeastAsNew)
  {
  }

  predicate NewestFirst(s: seq<Record>) {
    forall i, j :: 0 <= i < j < |s| ==> AtLeastAsNew(s[i], s[j])
  }

  /** In a newest-first order, records with dates precede records without. */
  lemma UndatedLast(s: seq<Record>, i: nat, j: nat)
    requires NewestFirst(s) && i < j < |s| && s[i].pubDate.None?
    ensures s[j].pubDate.None?
  {
    assert AtLeastAsNew(s[i], s[j]);
  }

  /** Dropping records keeps the newest-first order. */
  lemma {:induction false} FilterNewestFirst(s: seq<Record>, p: Record -> bool)
    requires NewestFirst(s)
    ensures NewestFirst(Collections.Filter(s, p))
    decreases |s|
  {
    if s != [] {
      var tail := s[1..];
      assert NewestFirst(tail) by {
        forall i, j | 0 <= i < j < |tail|
          ensures AtLeastAsNew(tail[i], tail[j])
        {
          assert tail[i] == s[i + 1] && tail[j] == s[j + 1];
        }
      }
      FilterNewestFirst(tail, p);
      if p(s[0]) {
        Collections.FilterKeeps(tail, p);
        ConsNewestFirst(s[0], tail, Collections.Filter(tail, p));
      }
    }
  }

  /** A record at least as new as every record of a newest-first list can go in front of it. */
  lemma ConsNewestFirst(x: Record, tail: seq<Record>, sub: seq<Record>)
    requires forall j :: 0 <= j < |tail| ==> AtLeastAsNew(x, tail[j])
    requires NewestFirst(sub) && forall i :: 0 <= i < |sub| ==> sub[i] in tail
    ensures NewestFirst([x] + sub)
  {
    var f := [x] + sub;
    forall i, j | 0 <= i < j < |f|
      ensures AtLeastAsNew(f[i], f[j])
    {
      assert f[j] == sub[j - 1];
      if i > 0 {
        assert f[i] == sub[i - 1];
      } else {
        var k :| 0 <= k < |tail| && tail[k] == sub[j - 1];
      }
    }
  }

  /** The collection loop of `refresh_rss`. */
  method CollectRecords(stored: seq<Option<Record>>, template: Option<Template>) returns (collected: seq<Record>)
    ensures collected == Collected(stored, template)
  {
    collected := [];
    for i := 0 to |stored|
      invariant collected == Collected(stored[..i], template)
    {
      assert stored[..i + 1] == stored[..i] + [stored[i]];
      CollectedSnoc(stored[..i], stored[i], template);
      var res := stored[i];
      if res.Some? {
        collected := collected + [Regenerate(res.value, template)];
      }
    }
    assert stored[..|stored|] == stored;
  }

  /** `items.sort(key=get_safe_pub_date, reverse=True)`. */
  method SortNewestFirst(s: seq<Record>) returns (sorted: seq<Record>)
    ensures NewestFirst(sorted) && multiset(sorted) == multiset(s)
  {
    var a := new Record[|s|](i requires 0 <= i < |s| => s[i]);
    assert a[..] == s;
    NewestFirstIsPreorder();
    Sorting.SortInPlace(a, AnyRecord, AtLeastAsNew);
    sorted := a[..];
  }

  /** The filter loop of `refresh_rss`. */
  method DropFlagged(sorted: seq<Record>) returns (filtered: seq<Record>)
    ensures filtered == Collections.Filter(sorted, Keep)
  {
    filtered := [];
    for k := 0 to |sorted|
      invariant filtered == Collections.Filter(sorted[..k], Keep)
    {
      assert sorted[..k + 1] == sorted[..k] + [sorted[k]];
      Collections.FilterConcat(sorted[..k], [sorted[k]], Keep);
      if Keep(sorted[k]) {
        filtered := filtered + [sorted[k]];
      }
    }
    assert sorted[..|sorted|] == sorted;
  }

  /**
   * `refresh_rss` up to the feed generation: collects and regenerates the
   * present records, sorts them newest first, drops the flagged ones, and
   * reports how many were dropped and whether the metric is bumped.
   */
  method RefreshRss(stored: seq<Option<Record>>, template: Option<Template>)
    returns (items: seq<Record>, filteredOut: nat, bumped: bool)
    ensures NewestFirst(items)
    ensures forall r :: multiset(items)[r] == if Keep(r) then multiset(Collected(stored, template))[r] else 0
    ensures filteredOut == Collections.CountIf(Collected(stored, template), Dropped)
    ensures filteredOut == |Collected(stored, template)| - |items|
    ensures bumped <==> filteredOut > 0
  {
    var collected := CollectRecords(stored, template);
    var sorted := SortNewestFirst(collected);
    var originalCount := |sorted|;
    items := DropFlagged(sorted);

    FilterNewestFirst(sorted, Keep);
    forall r
      ensures multiset(items)[r] == if Keep(r) then multiset(collected)[r] else 0
    {
      Collections.FilterCount(sorted, Keep, r);
    }
    DroppedCount(collected, sorted);

    filteredOut := 0;
    bumped := false;
    if |items| < originalCount {
      filteredOut := originalCount - |items|;
      bumped := true;
    }
  }

  /** Sorting before filtering does not change how many records are dropped. */
  lemma DroppedCount(collected: seq<Record>, sorted: seq<Record>)
    requires multiset(sorted) == multiset(collected)
    ensures |sorted| == |collected|
    ensures Collections.CountIf(collected, Dropped) == |sorted| - |Collections.Filter(sorted, Keep)|
  {
    assert |sorted| == |multiset(sorted)| == |multiset(collected)| == |collected|;
    Collections.CountIfSplit(collected, Keep, Dropped);
    Collections.CountIfPermutation(collected, sorted, Keep);
  }
}
