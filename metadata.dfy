/**
 * The retreat metadata store (admin/src/stores/metadata.js): the transform of
 * the retreats SQL-view rows, the id and code lookup maps, the current/old
 * split, the attribute replacement sent to the server, and the general-retreat
 * cohort statistics of the dashboard.
 *
 * Dates are integer milliseconds; the JSON column of a retreat row is given
 * already parsed.
 */
module Metadata {
  import opened Wrappers
  import opened Strings
  import Sorting
  import Collections

  const MsPerDay := 24 * 60 * 60 * 1000

  // ---------------------------------------------------------------------
  // Retreats
  // ---------------------------------------------------------------------

  /** The attribute values of a retreat option, by attribute. */
  datatype RetreatAttributes = RetreatAttributes(
    date: int,
    noOfDays: int,
    retreatCode: Option<string>,
    disabled: Option<string>,
    location: Option<string>,
    totalYogis: Option<string>,
    retreatType: Option<string>,
    medium: Option<string>,
    finalized: Option<string>)

  /** One row of the active-retreats SQL view: id, code, name, attributes, current. */
  datatype RetreatRow = RetreatRow(id: string, code: string, name: string, attributes: RetreatAttributes, current: string)

  datatype Retreat = Retreat(
    id: string,
    code: string,
    name: string,
    current: bool,
    retreatCode: Option<string>,
    date: int,
    endDate: int,
    disabled: bool,
    location: Option<string>,
    totalYogis: Option<string>,
    retreatType: Option<string>,
    noOfDays: int,
    medium: Option<string>,
    finalized: bool)

  /** `getEndDate`: `noOfDays` whole days after the start. */
  function GetEndDate(start: int, noOfDays: int): (end: int)
    ensures end - start == noOfDays * MsPerDay
    ensures noOfDays >= 0 ==> end >= start
  {
    start + noOfDays * 24 * 60 * 60 * 1000
  }

  /** A retreat as `transformRetreats` builds it: its end date follows from its start and length. */
  predicate WellFormed(r: Retreat) {
    r.endDate == GetEndDate(r.date, r.noOfDays)
  }

  /** The flags are set by the exact string "true" and by nothing else. */
  function ToRetreat(row: RetreatRow): (r: Retreat)
    ensures WellFormed(r)
    ensures r.id == row.id && r.code == row.code && r.name == row.name
    ensures r.date == row.attributes.date && r.noOfDays == row.attributes.noOfDays
    ensures r.current <==> row.current == "true"
    ensures r.disabled <==> row.attributes.disabled == Some("true")
    ensures r.finalized <==> row.attributes.finalized == Some("true")
  {
    var a := row.attributes;
    Retreat(
      id := row.id, code := row.code, name := row.name,
      current := row.current == "true",
      retreatCode := a.retreatCode,
      date := a.date,
      endDate := GetEndDate(a.date, a.noOfDays),
      disabled := a.disabled == Some("true"),
      location := a.location, totalYogis := a.totalYogis, retreatType := a.retreatType,
      noOfDays := a.noOfDays, medium := a.medium,
      finalized := a.finalized == Some("true"))
  }

  function ToRetreats(rows: seq<RetreatRow>): (rs: seq<Retreat>)
    ensures |rs| == |rows|
    ensures forall i :: 0 <= i < |rows| ==> rs[i] == ToRetreat(rows[i])
  {
    if rows == [] then [] else [ToRetreat(rows[0])] + ToRetreats(rows[1..])
  }

  function Anything(r: Retreat): bool { true }

  /** `(a, b) => a.date - b.date`, read as "keep `a` first". */
  function ByDate(): (Retreat, Retreat) -> bool {
    (a: Retreat, b: Retreat) => a.date <= b.date
  }

  predicate SortedByDate(rs: seq<Retreat>) {
    forall i, j :: 0 <= i < j < |rs| ==> rs[i].date <= rs[j].date
  }

  /**
   * `transformRetreats`: one retreat per row, sorted in place by start date.
   * Rows already in date order keep their order.
   */
  method TransformRetreats(rows: seq<RetreatRow>) returns (rs: seq<Retreat>)
    ensures |rs| == |rows|
    ensures multiset(rs) == multiset(ToRetreats(rows))
    ensures SortedByDate(rs)
    ensures forall i :: 0 <= i < |rs| ==> WellFormed(rs[i])
    ensures SortedByDate(ToRetreats(rows)) ==> rs == ToRetreats(rows)
  {
    var mapped := ToRetreats(rows);
    var a := new Retreat[|rows|](i requires 0 <= i < |rows| => mapped[i]);
    assert a[..] == mapped;
    Sorting.SortInPlace(a, Anything, ByDate());
    rs := a[..];
    forall i | 0 <= i < |rs|
      ensures WellFormed(rs[i])
    {
      assert rs[i] in multiset(mapped);
    }
  }

  // ---------------------------------------------------------------------
  // Lookup maps (`retreatsMapWithIdKey`, `retreatsMapWithCodeKey`)
  // ---------------------------------------------------------------------

  function IdOf(r: Retreat): string { r.id }

  function CodeOf(r: Retreat): string { r.code }

  /**
   * The object built by assigning `map[key(r)] = r` for each `r` in turn:
   * it has a key for every retreat and no other, and under each key a
   * retreat of the list that has that key.
   */
  function IndexedBy(s: seq<Retreat>, key: Retreat -> string): (m: map<string, Retreat>)
    ensures forall i :: 0 <= i < |s| ==> key(s[i]) in m
    ensures forall k :: k in m ==> m[k] in s && key(m[k]) == k
    decreases |s|
  {
    if s == [] then map[] else IndexedBy(s[..|s| - 1], key)[key(s[|s| - 1]) := s[|s| - 1]]
  }

  /** Every retreat is under its key; with no later retreat on that key, it is the one found. */
  lemma {:induction false} IndexedByFinds(s: seq<Retreat>, key: Retreat -> string, i: nat)
    requires i < |s|
    ensures key(s[i]) in IndexedBy(s, key)
    ensures (forall k :: i < k < |s| ==> key(s[k]) != key(s[i])) ==> IndexedBy(s, key)[key(s[i])] == s[i]
    decreases |s|
  {
    if i < |s| - 1 {
      IndexedByFinds(s[..|s| - 1], key, i);
    }
  }

  /** Every entry of the map is some retreat of the list under its own key. */
  lemma {:induction false} IndexedByEntries(s: seq<Retreat>, key: Retreat -> string, k: string)
    requires k in IndexedBy(s, key)
    ensures exists i :: 0 <= i < |s| && s[i] == IndexedBy(s, key)[k] && key(s[i]) == k
    decreases |s|
  {
    var last := s[|s| - 1];
    if key(last) != k {
      IndexedByEntries(s[..|s| - 1], key, k);
      var i :| 0 <= i < |s| - 1 && s[..|s| - 1][i] == IndexedBy(s[..|s| - 1], key)[k] && key(s[..|s| - 1][i]) == k;
      assert s[i] == s[..|s| - 1][i];
    } else {
      assert s[|s| - 1] == IndexedBy(s, key)[k];
    }
  }

  method IndexBy(retreats: Option<seq<Retreat>>, key: Retreat -> string) returns (m: map<string, Retreat>)
    ensures m == IndexedBy(retreats.GetOr([]), key)
  {
    var s := retreats.GetOr([]);
    m := map[];
    for i := 0 to |s|
      invariant m == IndexedBy(s[..i], key)
    {
      assert s[..i + 1][..i] == s[..i];
      m := m[key(s[i]) := s[i]];
    }
    assert s[..|s|] == s;
  }

  /** `retreatsMapWithIdKey`; an absent list gives an empty map. */
  method RetreatsMapWithIdKey(retreats: Option<seq<Retreat>>) returns (m: map<string, Retreat>)
    ensures retreats.None? ==> m == map[]
    ensures m == IndexedBy(retreats.GetOr([]), IdOf)
  {
    m := IndexBy(retreats, IdOf);
  }

  /** `retreatsMapWithCodeKey`; an absent list gives an empty map. */
  method RetreatsMapWithCodeKey(retreats: Option<seq<Retreat>>) returns (m: map<string, Retreat>)
    ensures retreats.None? ==> m == map[]
    ensures m == IndexedBy(retreats.GetOr([]), CodeOf)
  {
    m := IndexBy(retreats, CodeOf);
  }

  // ---------------------------------------------------------------------
  // Current and old retreats
  // ---------------------------------------------------------------------

  function IsCurrent(r: Retreat): bool { r.current }

  function IsOld(r: Retreat): bool { !r.current }

  function CurrentRetreats(rs: seq<Retreat>): (r: seq<Retreat>)
    ensures Collections.IsSubsequence(r, rs)
    ensures forall i :: 0 <= i < |r| ==> r[i].current
    ensures forall i :: 0 <= i < |rs| && rs[i].current ==> rs[i] in r
  {
    Collections.FilterKeeps(rs, IsCurrent);
    Collections.Filter(rs, IsCurrent)
  }

  function OldRetreats(rs: seq<Retreat>): (r: seq<Retreat>)
    ensures Collections.IsSubsequence(r, rs)
    ensures forall i :: 0 <= i < |r| ==> !r[i].current
    ensures forall i :: 0 <= i < |rs| && !rs[i].current ==> rs[i] in r
  {
    Collections.FilterKeeps(rs, IsOld);
    Collections.Filter(rs, IsOld)
  }

  /** The two lists together hold every retreat exactly as often as the store does. */
  lemma CurrentOldPartition(rs: seq<Retreat>)
    ensures multiset(CurrentRetreats(rs)) + multiset(OldRetreats(rs)) == multiset(rs)
    ensures |CurrentRetreats(rs)| + |OldRetreats(rs)| == |rs|
  {
    Collections.FilterPartition(rs, IsCurrent, IsOld);
    Collections.CountIfSplit(rs, IsCurrent, IsOld);
  }

  // ---------------------------------------------------------------------
  // Attribute replacement (`updateRetreatAttribute`)
  // ---------------------------------------------------------------------

  datatype AttributeValue = AttributeValue(attribute: string, value: string)

  /** `findIndex`: the first position holding the attribute, if any. */
  function FindAttribute(attrs: seq<AttributeValue>, id: string): (r: Option<nat>)
    ensures r.Some? ==> r.value < |attrs| && attrs[r.value].attribute == id
    ensures r.Some? ==> forall k :: 0 <= k < r.value ==> attrs[k].attribute != id
    ensures r.None? ==> forall k :: 0 <= k < |attrs| ==> attrs[k].attribute != id
  {
    if attrs == [] then None
    else if attrs[0].attribute == id then Some(0)
    else match FindAttribute(attrs[1..], id)
      case None => None
      case Some(k) => Some(k + 1)
  }

  /** The attribute list sent back: the first entry for `id` spliced out, the new value appended. */
  function UpdatedAttributes(attrs: seq<AttributeValue>, id: string, value: string): (r: seq<AttributeValue>)
    ensures |r| >= 1 && r[|r| - 1] == AttributeValue(id, value)
    ensures forall k :: 0 <= k < |attrs| && attrs[k].attribute == id && (forall j :: 0 <= j < k ==> attrs[j].attribute != id) ==>
              r[..|r| - 1] == attrs[..k] + attrs[k + 1..]
    ensures (forall k :: 0 <= k < |attrs| ==> attrs[k].attribute != id) ==> r[..|r| - 1] == attrs
  {
    var kept := match FindAttribute(attrs, id)
      case None => attrs
      case Some(k) => attrs[..k] + attrs[k + 1..];
    kept + [AttributeValue(id, value)]
  }

  function IsAttribute(id: string): AttributeValue -> bool {
    (a: AttributeValue) => a.attribute == id
  }

  function IsOtherAttribute(id: string): AttributeValue -> bool {
    (a: AttributeValue) => a.attribute != id
  }

  /**
   * The update keeps the entries of other attributes in their order, removes
   * exactly one entry of the updated attribute when there is one, and adds
   * the new entry.
   */
  lemma UpdateKeepsOthers(attrs: seq<AttributeValue>, id: string, value: string)
    ensures var r := UpdatedAttributes(attrs, id, value);
            Collections.Filter(r[..|r| - 1], IsOtherAttribute(id)) == Collections.Filter(attrs, IsOtherAttribute(id))
    ensures var n := Collections.CountIf(attrs, IsAttribute(id));
            Collections.CountIf(UpdatedAttributes(attrs, id, value), IsAttribute(id)) == if n == 0 then 1 else n
  {
    var r := UpdatedAttributes(attrs, id, value);
    var kept := r[..|r| - 1];
    Collections.CountIfSnoc(kept, AttributeValue(id, value), IsAttribute(id));
    assert kept + [AttributeValue(id, value)] == r;
    match FindAttribute(attrs, id)
    case None =>
      Collections.FilterKeepsAll(attrs, IsOtherAttribute(id));
      Collections.CountIfZero(attrs, IsAttribute(id));
    case Some(k) =>
      assert kept == attrs[..k] + attrs[k + 1..];
      Collections.FilterSplice(attrs, k, IsOtherAttribute(id));
      Collections.CountIfSplice(attrs, k, IsAttribute(id));
  }

  /** Updating an attribute that has at most one entry leaves exactly one entry for it. */
  lemma UpdateLeavesOne(attrs: seq<AttributeValue>, id: string, value: string)
    requires Collections.CountIf(attrs, IsAttribute(id)) <= 1
    ensures Collections.CountIf(UpdatedAttributes(attrs, id, value), IsAttribute(id)) == 1
  {
    UpdateKeepsOthers(attrs, id, value);
  }

  // ---------------------------------------------------------------------
  // General-retreat statistics (`generalRetreatStats`)
  // ---------------------------------------------------------------------

  /** A participation-summary row: yogi uid and retreat code or name. */
  datatype ParticipationRow = ParticipationRow(uid: string, retreatCode: string)

  /** An expression-of-interest summary row: yogi uid, retreat, invitation sent. */
  datatype EoiRow = EoiRow(uid: string, retreatCode: string, invitationSent: string)

  /** A SQL-view response; `rows` may be missing (`listGrid?.rows`). */
  datatype Grid<T> = Grid(rows: Option<seq<T>>)

  /**
   * The dashboard figures. When an input is missing only the first four are
   * present (`totalApplicants` and `repeatBreakdown` are `None`).
   */
  datatype Stats = Stats(
    totalParticipants: nat,
    oneTimeParticipants: nat,
    repeatParticipants: nat,
    unableToParticipate: nat,
    totalApplicants: Option<nat>,
    repeatBreakdown: Option<map<nat, nat>>)

  const ZeroStats := Stats(0, 0, 0, 0, None, None)

  /** The lowercased type mentions "general"; a retreat without a type is not general. */
  predicate IsGeneral(r: Retreat) {
    r.retreatType.Some? && Contains(Lower(r.retreatType.value), "general")
  }

  /** The codes and names of the general retreats (`flatMap((r) => [r.code, r.name])`). */
  function GeneralCodes(rs: seq<Retreat>): (codes: set<string>)
    ensures forall c :: c in codes <==> exists i :: 0 <= i < |rs| && IsGeneral(rs[i]) && (rs[i].code == c || rs[i].name == c)
  {
    if rs == [] then {}
    else
      var rest := GeneralCodes(rs[1..]);
      assert forall i :: 1 <= i < |rs| ==> rs[i] == rs[1..][i - 1];
      if IsGeneral(rs[0]) then {rs[0].code, rs[0].name} + rest else rest
  }

  function EligibleRowOf(general: set<string>, uid: string): ParticipationRow -> bool {
    (row: ParticipationRow) => row.retreatCode in general && row.uid == uid
  }

  /** The uids with a participation row for a general retreat. */
  ghost function Participants(rows: seq<ParticipationRow>, general: set<string>): set<string> {
    set i | 0 <= i < |rows| && rows[i].retreatCode in general :: rows[i].uid
  }

  /** The uids with an application row for a general retreat. */
  ghost function Applicants(rows: seq<EoiRow>, general: set<string>): set<string> {
    set i | 0 <= i < |rows| && rows[i].retreatCode in general :: rows[i].uid
  }

  /** The uids with an application row for a general retreat whose invitation was sent. */
  ghost function Invited(rows: seq<EoiRow>, general: set<string>): set<string> {
    set i | 0 <= i < |rows| && rows[i].retreatCode in general && rows[i].invitationSent == "true" :: rows[i].uid
  }

  /** Applied to a general retreat, never invited to one, never took part in one. */
  ghost function Unable(prows: seq<ParticipationRow>, erows: seq<EoiRow>, general: set<string>): set<string> {
    Applicants(erows, general) - Invited(erows, general) - Participants(prows, general)
  }

  /** `participantCounts` after the rows seen so far. */
  function ParticipantCounts(rows: seq<ParticipationRow>, general: set<string>): (m: map<string, nat>)
    ensures forall u :: u in m ==> m[u] >= 1
    decreases |rows|
  {
    if rows == [] then map[]
    else
      var m := ParticipantCounts(rows[..|rows| - 1], general);
      var row := rows[|rows| - 1];
      if row.retreatCode in general then m[row.uid := Collections.GetOrZero(m, row.uid) + 1] else m
  }

  /** A uid's count is the number of its general-retreat participation rows. */
  lemma {:induction false} ParticipantCountsAre(rows: seq<ParticipationRow>, general: set<string>, u: string)
    ensures Collections.GetOrZero(ParticipantCounts(rows, general), u) == Collections.CountIf(rows, EligibleRowOf(general, u))
    decreases |rows|
  {
    if rows != [] {
      var init := rows[..|rows| - 1];
      ParticipantCountsAre(init, general, u);
      assert init + [rows[|rows| - 1]] == rows;
      Collections.CountIfSnoc(init, rows[|rows| - 1], EligibleRowOf(general, u));
    }
  }

  /** The counted uids are the participants. */
  lemma {:induction false} ParticipantCountsKeys(rows: seq<ParticipationRow>, general: set<string>)
    ensures ParticipantCounts(rows, general).Keys == Participants(rows, general)
    decreases |rows|
  {
    if rows != [] {
      var init := rows[..|rows| - 1];
      ParticipantCountsKeys(init, general);
      assert forall i :: 0 <= i < |init| ==> init[i] == rows[i];
      var last := rows[|rows| - 1];
      if last.retreatCode in general {
        assert Participants(rows, general) == Participants(init, general) + {last.uid};
      } else {
        assert Participants(rows, general) == Participants(init, general);
      }
    }
  }

  /** The participation loop: per-uid counts and the set of processed uids. */
  method CountParticipation(rows: seq<ParticipationRow>, general: set<string>)
    returns (counts: map<string, nat>, processed: set<string>)
    ensures counts == ParticipantCounts(rows, general)
    ensures processed == counts.Keys
  {
    counts, processed := map[], {};
    for i := 0 to |rows|
      invariant counts == ParticipantCounts(rows[..i], general)
      invariant processed == counts.Keys
    {
      assert rows[..i + 1][..i] == rows[..i];
      var row := rows[i];
      if row.retreatCode in general {
        counts := counts[row.uid := Collections.GetOrZero(counts, row.uid) + 1];
        processed := processed + {row.uid};
      }
    }
    assert rows[..|rows|] == rows;
  }

  /** The uids of `done` whose count is `c`. */
  ghost function WithCount(counts: map<string, nat>, done: set<string>, c: nat): set<string> {
    set u | u in done && u in counts && counts[u] == c
  }

  /** The uids of `done` counted more than once. */
  ghost function Repeaters(counts: map<string, nat>, done: set<string>): set<string> {
    set u | u in done && u in counts && counts[u] > 1
  }

  lemma WithCountAdd(counts: map<string, nat>, done: set<string>, u: string, c: nat)
    requires u in counts && u !in done
    ensures |WithCount(counts, done + {u}, c)| == |WithCount(counts, done, c)| + if counts[u] == c then 1 else 0
  {
    if counts[u] == c {
      assert WithCount(counts, done + {u}, c) == WithCount(counts, done, c) + {u};
    } else {
      assert WithCount(counts, done + {u}, c) == WithCount(counts, done, c);
    }
  }

  lemma RepeatersAdd(counts: map<string, nat>, done: set<string>, u: string)
    requires u in counts && u !in done
    ensures |Repeaters(counts, done + {u})| == |Repeaters(counts, done)| + if counts[u] > 1 then 1 else 0
  {
    if counts[u] > 1 {
      assert Repeaters(counts, done + {u}) == Repeaters(counts, done) + {u};
    } else {
      assert Repeaters(counts, done + {u}) == Repeaters(counts, done);
    }
  }

  /** What the tally of the uids in `done` has found; `history` lists the repeat counts met. */
  ghost predicate Tallied(counts: map<string, nat>, done: set<string>, one: nat, repeat: nat,
                          breakdown: map<nat, nat>, history: seq<nat>) {
    && one == |WithCount(counts, done, 1)|
    && repeat == |Repeaters(counts, done)|
    && ((forall u :: u in counts ==> counts[u] >= 1) ==> one + repeat == |done|)
    && (forall c :: c in breakdown ==> c > 1)
    && (forall c :: c > 1 ==> Collections.GetOrZero(breakdown, c) == |WithCount(counts, done, c)|)
    && breakdown == Histogram(history)
    && repeat == |history|
  }

  /** The histogram of a list of counts, built one count at a time. */
  ghost function Histogram(h: seq<nat>): map<nat, nat>
    decreases |h|
  {
    if h == [] then map[] else var m := Histogram(h[..|h| - 1]); m[h[|h| - 1] := Collections.GetOrZero(m, h[|h| - 1]) + 1]
  }

  /** The counts met are the keys of the histogram. */
  lemma {:induction false} HistogramKeys(h: seq<nat>)
    ensures forall c :: c in Histogram(h) <==> c in h
    decreases |h|
  {
    if h != [] {
      HistogramKeys(h[..|h| - 1]);
      assert h == h[..|h| - 1] + [h[|h| - 1]];
    }
  }

  /** The histogram's buckets `0 .. n-1` added up. */
  function SumBelow(m: map<nat, nat>, n: nat): nat {
    if n == 0 then 0 else SumBelow(m, n - 1) + Collections.GetOrZero(m, n - 1)
  }

  lemma {:induction false} SumBelowEmpty(n: nat)
    ensures SumBelow(map[], n) == 0
  {
    if n > 0 {
      SumBelowEmpty(n - 1);
    }
  }

  lemma {:induction false} SumBelowBump(m: map<nat, nat>, n: nat, c: nat)
    ensures SumBelow(m[c := Collections.GetOrZero(m, c) + 1], n) == SumBelow(m, n) + if c < n then 1 else 0
  {
    if n > 0 {
      SumBelowBump(m, n - 1, c);
    }
  }

  /** Summed over a range that holds every count, a histogram adds up to the number of counts. */
  lemma {:induction false} HistogramSum(h: seq<nat>, n: nat)
    requires forall i :: 0 <= i < |h| ==> h[i] < n
    ensures SumBelow(Histogram(h), n) == |h|
    decreases |h|
  {
    if h == [] {
      SumBelowEmpty(n);
    } else {
      var m, c := Histogram(h[..|h| - 1]), h[|h| - 1];
      assert Histogram(h) == m[c := Collections.GetOrZero(m, c) + 1];
      assert c < n;
      HistogramSum(h[..|h| - 1], n);
      SumBelowBump(m, n, c);
    }
  }

  /**
   * The loop over `Object.values(participantCounts)`: one-time and repeat
   * participants and the histogram of repeat counts. Every histogram key is
   * above 1 and the histogram adds up to the repeat participants.
   */
  method Tally(counts: map<string, nat>) returns (one: nat, repeat: nat, breakdown: map<nat, nat>)
    ensures one == |WithCount(counts, counts.Keys, 1)|
    ensures repeat == |Repeaters(counts, counts.Keys)|
    ensures (forall u :: u in counts ==> counts[u] >= 1) ==> one + repeat == |counts|
    ensures forall c :: c in breakdown ==> c > 1
    ensures forall c :: c > 1 ==> Collections.GetOrZero(breakdown, c) == |WithCount(counts, counts.Keys, c)|
    ensures forall n: nat :: (forall c :: c in breakdown ==> c < n) ==> SumBelow(breakdown, n) == repeat
  {
    one, repeat, breakdown := 0, 0, map[];
    var rest := counts.Keys;
    ghost var done: set<string> := {};
    ghost var history: seq<nat> := [];
    TallyStart(counts);
    while rest != {}
      invariant rest <= counts.Keys && done == counts.Keys - rest
      invariant Tallied(counts, done, one, repeat, breakdown, history)
      decreases |rest|
    {
      rest, done, history, one, repeat, breakdown := TallyOne(counts, rest, done, history, one, repeat, breakdown);
    }
    TallyDone(counts, done, one, repeat, breakdown, history);
  }

  lemma TallyStart(counts: map<string, nat>)
    ensures Tallied(counts, {}, 0, 0, map[], [])
  {
    assert forall c :: WithCount(counts, {}, c) == {};
    assert Repeaters(counts, {}) == {};
  }

  lemma TallyDone(counts: map<string, nat>, done: set<string>, one: nat, repeat: nat,
                  breakdown: map<nat, nat>, history: seq<nat>)
    requires done == counts.Keys
    requires Tallied(counts, done, one, repeat, breakdown, history)
    ensures one == |WithCount(counts, counts.Keys, 1)|
    ensures repeat == |Repeaters(counts, counts.Keys)|
    ensures (forall u :: u in counts ==> counts[u] >= 1) ==> one + repeat == |counts|
    ensures forall c :: c in breakdown ==> c > 1
    ensures forall c :: c > 1 ==> Collections.GetOrZero(breakdown, c) == |WithCount(counts, counts.Keys, c)|
    ensures forall n: nat :: (forall c :: c in breakdown ==> c < n) ==> SumBelow(breakdown, n) == repeat
  {
    assert |done| == |counts|;
    HistogramKeys(history);
    forall n: nat | forall c :: c in breakdown ==> c < n
      ensures SumBelow(breakdown, n) == repeat
    {
      assert forall i :: 0 <= i < |history| ==> history[i] in breakdown;
      HistogramSum(history, n);
    }
  }

  /** One iteration on some uid still to visit: `count === 1`, `count > 1`, or neither. */
  method TallyOne(counts: map<string, nat>, rest: set<string>, ghost done: set<string>, ghost history: seq<nat>,
                  one: nat, repeat: nat, breakdown: map<nat, nat>)
    returns (rest': set<string>, ghost done': set<string>, ghost history': seq<nat>,
             one': nat, repeat': nat, breakdown': map<nat, nat>)
    requires rest != {} && rest <= counts.Keys && done == counts.Keys - rest
    requires Tallied(counts, done, one, repeat, breakdown, history)
    ensures rest' <= counts.Keys && done' == counts.Keys - rest' && |rest'| < |rest|
    ensures Tallied(counts, done', one', repeat', breakdown', history')
  {
    var u :| u in rest;
    var c := counts[u];
    one', repeat', breakdown' := one, repeat, breakdown;
    if c == 1 {
      one' := one + 1;
    } else if c > 1 {
      repeat' := repeat + 1;
      breakdown' := breakdown[c := Collections.GetOrZero(breakdown, c) + 1];
    }
    TallyStep(counts, done, u, one, repeat, breakdown, history, one', repeat', breakdown');
    rest', done' := rest - {u}, done + {u};
    history' := if c > 1 then history + [c] else history;
  }

  lemma TallyStep(counts: map<string, nat>, done: set<string>, u: string,
                  one: nat, repeat: nat, breakdown: map<nat, nat>, history: seq<nat>,
                  one': nat, repeat': nat, breakdown': map<nat, nat>)
    requires u in counts && u !in done
    requires Tallied(counts, done, one, repeat, breakdown, history)
    requires one' == one + (if counts[u] == 1 then 1 else 0)
    requires repeat' == repeat + (if counts[u] > 1 then 1 else 0)
    requires breakdown' == if counts[u] > 1 then breakdown[counts[u] := Collections.GetOrZero(breakdown, counts[u]) + 1] else breakdown
    ensures Tallied(counts, done + {u}, one', repeat', breakdown', if counts[u] > 1 then history + [counts[u]] else history)
  {
    var c := counts[u];
    WithCountAdd(counts, done, u, 1);
    RepeatersAdd(counts, done, u);
    forall d | d > 1
      ensures |WithCount(counts, done + {u}, d)| == |WithCount(counts, done, d)| + if c == d then 1 else 0
    {
      WithCountAdd(counts, done, u, d);
    }
    if c > 1 {
      assert (history + [c])[..|history|] == history;
    }
  }

  /** The application loop: applicants and invited uids of the general retreats. */
  method CollectApplicants(rows: seq<EoiRow>, general: set<string>) returns (applicants: set<string>, invited: set<string>)
    ensures applicants == Applicants(rows, general)
    ensures invited == Invited(rows, general)
  {
    applicants, invited := {}, {};
    for i := 0 to |rows|
      invariant applicants == Applicants(rows[..i], general)
      invariant invited == Invited(rows[..i], general)
    {
      var row := rows[i];
      assert forall j :: 0 <= j < i ==> rows[..i + 1][j] == rows[..i][j];
      if row.retreatCode in general {
        assert Applicants(rows[..i + 1], general) == applicants + {row.uid};
        applicants := applicants + {row.uid};
        if row.invitationSent == "true" {
          assert Invited(rows[..i + 1], general) == invited + {row.uid};
          invited := invited + {row.uid};
        } else {
          assert Invited(rows[..i + 1], general) == invited;
        }
      } else {
        assert Applicants(rows[..i + 1], general) == applicants;
        assert Invited(rows[..i + 1], general) == invited;
      }
    }
    assert rows[..|rows|] == rows;
  }

  /**
   * `generalRetreatStats`. With every input present: the participants are
   * the uids with a general-retreat participation row, split into one-time
   * and repeat participants; the histogram counts the repeat participants by
   * number of participations; the unable ones applied to a general retreat
   * but were neither invited to nor took part in one.
   */
  method GeneralRetreatStats(participation: Option<Grid<ParticipationRow>>, eoi: Option<Grid<EoiRow>>,
                             retreats: Option<seq<Retreat>>) returns (st: Stats)
    ensures participation.None? || eoi.None? || retreats.None? ==> st == ZeroStats
    ensures participation.Some? && eoi.Some? && retreats.Some? ==>
              var general := GeneralCodes(retreats.value);
              var prows, erows := participation.value.rows.GetOr([]), eoi.value.rows.GetOr([]);
              var counts := ParticipantCounts(prows, general);
              && st.totalParticipants == |Participants(prows, general)|
              && st.oneTimeParticipants == |WithCount(counts, counts.Keys, 1)|
              && st.repeatParticipants == |Repeaters(counts, counts.Keys)|
              && st.oneTimeParticipants + st.repeatParticipants == st.totalParticipants
              && st.repeatBreakdown.Some?
              && (forall c :: c in st.repeatBreakdown.value ==> c > 1)
              && (forall c :: c > 1 ==> Collections.GetOrZero(st.repeatBreakdown.value, c) == |WithCount(counts, counts.Keys, c)|)
              && (forall n: nat :: (forall c :: c in st.repeatBreakdown.value ==> c < n) ==>
                    SumBelow(st.repeatBreakdown.value, n) == st.repeatParticipants)
              && st.totalApplicants == Some(|Applicants(erows, general)|)
              && st.unableToParticipate == |Unable(prows, erows, general)|
              && st.unableToParticipate <= st.totalApplicants.value
  {
    if participation.None? || eoi.None? || retreats.None? {
      return ZeroStats;
    }
    var general := GeneralCodes(retreats.value);
    var prows, erows := participation.value.rows.GetOr([]), eoi.value.rows.GetOr([]);
    var counts, processed := CountParticipation(prows, general);
    ParticipantCountsKeys(prows, general);
    var one, repeat, breakdown := Tally(counts);
    var applicants, invited := CollectApplicants(erows, general);
    var waiting := set u | u in applicants && u !in invited && u !in processed;
    assert waiting == Unable(prows, erows, general);
    SubsetSize(waiting, applicants);
    st := Stats(|processed|, one, repeat, |waiting|, Some(|applicants|), Some(breakdown));
  }

  lemma SubsetSize(a: set<string>, b: set<string>)
    requires a <= b
    ensures |a| <= |b|
  {
    assert b == a + (b - a);
  }
}
