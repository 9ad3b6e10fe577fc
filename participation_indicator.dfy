// The participation indicator of a yogi: the retreats the yogi took part in,
// grouped under the year of each retreat, latest year first, each shown as a
// badge with the retreat code, the attendance and a marker for a special
// comment.

module ParticipationIndicator {
  import opened Wrappers
  import opened Strings
  import Collections
  import YogiList
  import Metadata

  type Retreat = Metadata.Retreat
  type Participation = YogiList.Participation

  /** A participation that names a known retreat, with the year the retreat starts in. */
  datatype Item = Item(retreat: Retreat, participation: Participation, year: int)

  /** The items of one year, in the order they were met. */
  datatype Group = Group(year: int, items: seq<Item>)

  function IsKnown(byCode: map<string, Retreat>): string -> bool {
    (code: string) => code in byCode
  }

  /**
   * The participations whose retreat code is in `retreatsMapWithCodeKey`,
   * in key order; the others are dropped. `keys` is `Object.keys` of the
   * participation, in the object's key order; `yearOf` is `getFullYear`
   * of a start date.
   */
  function Items(keys: seq<string>, participation: map<string, Participation>,
                 byCode: map<string, Retreat>, yearOf: int -> int): (items: seq<Item>)
    requires forall i :: 0 <= i < |keys| ==> keys[i] in participation
    ensures |items| == Collections.CountIf(keys, IsKnown(byCode))
  {
    if keys == [] then []
    else
      var rest := Items(keys[1..], participation, byCode, yearOf);
      var code := keys[0];
      if code in byCode then
        [Item(byCode[code], participation[code], yearOf(byCode[code].date))] + rest
      else rest
  }

  /** The k-th item is built from the k-th known code, and from nothing else. */
  lemma {:induction false} ItemsOfKnownCodes(keys: seq<string>, participation: map<string, Participation>,
                                             byCode: map<string, Retreat>, yearOf: int -> int, k: nat)
    requires forall i :: 0 <= i < |keys| ==> keys[i] in participation
    requires k < |Items(keys, participation, byCode, yearOf)|
    ensures var code := Collections.Filter(keys, IsKnown(byCode))[k];
            code in byCode && code in participation
            && Items(keys, participation, byCode, yearOf)[k]
               == Item(byCode[code], participation[code], yearOf(byCode[code].date))
    decreases |keys|
  {
    var known := Collections.Filter(keys, IsKnown(byCode));
    Collections.FilterKeeps(keys, IsKnown(byCode));
    if keys[0] in byCode {
      if k > 0 {
        ItemsOfKnownCodes(keys[1..], participation, byCode, yearOf, k - 1);
      }
    } else {
      ItemsOfKnownCodes(keys[1..], participation, byCode, yearOf, k);
    }
  }

  // ---------------------------------------------------------------------
  // Grouping by year (the `reduce`)
  // ---------------------------------------------------------------------

  function YearIs(year: int): Item -> bool {
    (it: Item) => it.year == year
  }

  /** The position of the group of `year`, if there is one. */
  function FindYear(groups: seq<Group>, year: int): (r: Option<nat>)
    ensures r.Some? ==> r.value < |groups| && groups[r.value].year == year
    ensures r.None? ==> forall j :: 0 <= j < |groups| ==> groups[j].year != year
  {
    if groups == [] then None
    else if groups[0].year == year then Some(0)
    else match FindYear(groups[1..], year)
      case None => None
      case Some(k) => Some(k + 1)
  }

  /** `if (!acc[year]) acc[year] = []; acc[year].push(item)`. */
  function Push(groups: seq<Group>, it: Item): seq<Group> {
    match FindYear(groups, it.year)
    case None => groups + [Group(it.year, [it])]
    case Some(i) => groups[i := Group(it.year, groups[i].items + [it])]
  }

  /** The `reduce` over the items: it groups them by year (see `GroupsOf`). */
  function GroupByYear(items: seq<Item>): (groups: seq<Group>)
    ensures GroupsOf(groups, items)
    decreases |items|
  {
    if items == [] then []
    else
      var init, it := items[..|items| - 1], items[|items| - 1];
      var prev := GroupByYear(init);
      PushDistinct(prev, it);
      PushFilters(prev, init, it);
      PushCovers(prev, init, it);
      assert init + [it] == items;
      Push(prev, it)
  }

  /**
   * `groups` groups `items` by year: one group per year that occurs, and
   * each group holds exactly the items of its year, in their order.
   */
  predicate GroupsOf(groups: seq<Group>, items: seq<Item>) {
    DistinctBy(groups, YearOfGroup)
    && (forall i :: 0 <= i < |groups| ==>
          groups[i].items == Collections.Filter(items, YearIs(groups[i].year)) && groups[i].items != [])
    && (forall k :: 0 <= k < |items| ==> exists i :: 0 <= i < |groups| && groups[i].year == items[k].year)
  }

  lemma FilterSnocYear(items: seq<Item>, it: Item, year: int)
    ensures Collections.Filter(items + [it], YearIs(year))
         == Collections.Filter(items, YearIs(year)) + if it.year == year then [it] else []
  {
    Collections.FilterConcat(items, [it], YearIs(year));
  }

  /** A new year is appended as a group of its own; a known year's group gains the item at its end. */
  lemma PushShape(groups: seq<Group>, it: Item)
    ensures var r := Push(groups, it);
            match FindYear(groups, it.year)
            case None => |r| == |groups| + 1 && r[..|groups|] == groups && r[|groups|] == Group(it.year, [it])
            case Some(i) => |r| == |groups| && r[i] == Group(it.year, groups[i].items + [it])
                            && forall j :: 0 <= j < |groups| && j != i ==> r[j] == groups[j]
  {
  }

  lemma PushDistinct(groups: seq<Group>, it: Item)
    requires DistinctBy(groups, YearOfGroup)
    ensures DistinctBy(Push(groups, it), YearOfGroup)
  {
    PushShape(groups, it);
  }

  lemma PushFilters(groups: seq<Group>, items: seq<Item>, it: Item)
    requires GroupsOf(groups, items)
    ensures var r := Push(groups, it);
            forall i :: 0 <= i < |r| ==>
              r[i].items == Collections.Filter(items + [it], YearIs(r[i].year)) && r[i].items != []
  {
    var r := Push(groups, it);
    PushShape(groups, it);
    forall i | 0 <= i < |r|
      ensures r[i].items == Collections.Filter(items + [it], YearIs(r[i].year)) && r[i].items != []
    {
      FilterSnocYear(items, it, r[i].year);
      if i == |groups| {
        Collections.FilterKeeps(items, YearIs(it.year));
      } else {
        assert r[i].year == groups[i].year;
      }
    }
  }

  lemma PushCovers(groups: seq<Group>, items: seq<Item>, it: Item)
    requires forall k :: 0 <= k < |items| ==> exists i :: 0 <= i < |groups| && groups[i].year == items[k].year
    ensures var r := Push(groups, it);
            var all := items + [it];
            forall k :: 0 <= k < |all| ==> exists i :: 0 <= i < |r| && r[i].year == all[k].year
  {
    var r := Push(groups, it);
    var all := items + [it];
    PushShape(groups, it);
    forall k | 0 <= k < |all|
      ensures exists i :: 0 <= i < |r| && r[i].year == all[k].year
    {
      if k < |items| {
        assert all[k] == items[k];
        var i :| 0 <= i < |groups| && groups[i].year == items[k].year;
        assert r[i].year == groups[i].year;
      } else {
        var f := FindYear(groups, it.year);
        if f.Some? {
          assert r[f.value].year == it.year;
        } else {
          assert r[|groups|].year == it.year;
        }
      }
    }
  }

  // ---------------------------------------------------------------------
  // Latest year first (`sort(([a], [b]) => b - a)`)
  // ---------------------------------------------------------------------

  /** Inserts `x` before the first element whose key is not above its own. */
  function InsertDesc<T>(x: T, s: seq<T>, key: T -> int): (r: seq<T>)
    ensures multiset(r) == multiset(s) + multiset{x}
    ensures forall i :: 0 <= i < |r| ==> r[i] == x || r[i] in s
  {
    if s == [] then [x]
    else if key(x) >= key(s[0]) then [x] + s
    else
      assert s == [s[0]] + s[1..];
      [s[0]] + InsertDesc(x, s[1..], key)
  }

  predicate StrictlyDescendingBy<T>(s: seq<T>, key: T -> int) {
    forall i, j :: 0 <= i < j < |s| ==> key(s[i]) > key(s[j])
  }

  predicate DistinctBy<T>(s: seq<T>, key: T -> int) {
    forall i, j :: 0 <= i < j < |s| ==> key(s[i]) != key(s[j])
  }

  /** Inserting a new key into a strictly descending list keeps it strictly descending. */
  lemma {:induction false} InsertDescSorted<T>(x: T, s: seq<T>, key: T -> int)
    requires StrictlyDescendingBy(s, key)
    requires forall y :: y in s ==> key(y) != key(x)
    ensures StrictlyDescendingBy(InsertDesc(x, s, key), key)
    decreases |s|
  {
    if s != [] && key(x) < key(s[0]) {
      var tail := InsertDesc(x, s[1..], key);
      InsertDescSorted(x, s[1..], key);
      forall j | 0 <= j < |tail|
        ensures key(s[0]) > key(tail[j])
      {
        if tail[j] != x {
          var m :| 0 <= m < |s[1..]| && s[1..][m] == tail[j];
          assert s[m + 1] == tail[j];
        }
      }
      assert InsertDesc(x, s, key) == [s[0]] + tail;
      ConsDescending(s[0], tail, key);
    }
  }

  lemma ConsDescending<T>(h: T, t: seq<T>, key: T -> int)
    requires StrictlyDescendingBy(t, key)
    requires forall j :: 0 <= j < |t| ==> key(h) > key(t[j])
    ensures StrictlyDescendingBy([h] + t, key)
  {
    var r := [h] + t;
    forall i, j | 0 <= i < j < |r|
      ensures key(r[i]) > key(r[j])
    {
      assert r[j] == t[j - 1];
      if i > 0 {
        assert r[i] == t[i - 1];
      }
    }
  }

  /** Insertion sort, largest key first. */
  function SortDesc<T>(s: seq<T>, key: T -> int): (r: seq<T>)
    ensures multiset(r) == multiset(s)
  {
    if s == [] then []
    else
      assert s == [s[0]] + s[1..];
      InsertDesc(s[0], SortDesc(s[1..], key), key)
  }

  /** When no key repeats, the sort leaves the keys strictly descending. */
  lemma {:induction false} SortDescSorted<T>(s: seq<T>, key: T -> int)
    requires DistinctBy(s, key)
    ensures StrictlyDescendingBy(SortDesc(s, key), key)
    decreases |s|
  {
    if s != [] {
      var rest := SortDesc(s[1..], key);
      SortDescSorted(s[1..], key);
      forall y | y in rest
        ensures key(y) != key(s[0])
      {
        assert y in multiset(s[1..]);
        var m :| 0 <= m < |s[1..]| && s[1..][m] == y;
        assert s[m + 1] == y;
      }
      InsertDescSorted(s[0], rest, key);
    }
  }

  function YearOfGroup(g: Group): int { g.year }

  /**
   * The year groups the indicator shows: they run from the latest year to
   * the earliest, no year twice; each holds exactly the items of its year
   * in key order; every item has the group of its year.
   */
  function YearGroups(keys: seq<string>, participation: map<string, Participation>,
                      byCode: map<string, Retreat>, yearOf: int -> int): (groups: seq<Group>)
    requires forall i :: 0 <= i < |keys| ==> keys[i] in participation
    ensures var items := Items(keys, participation, byCode, yearOf);
            StrictlyDescendingBy(groups, YearOfGroup)
            && (forall i :: 0 <= i < |groups| ==>
                  groups[i].items == Collections.Filter(items, YearIs(groups[i].year)) && groups[i].items != [])
            && (forall k :: 0 <= k < |items| ==> exists i :: 0 <= i < |groups| && groups[i].year == items[k].year)
  {
    var items := Items(keys, participation, byCode, yearOf);
    SortedGroups(GroupByYear(items), items);
    SortDesc(GroupByYear(items), YearOfGroup)
  }

  /** Sorting the groups by year keeps them the groups of the same items. */
  lemma SortedGroups(unsorted: seq<Group>, items: seq<Item>)
    requires GroupsOf(unsorted, items)
    ensures var groups := SortDesc(unsorted, YearOfGroup);
            StrictlyDescendingBy(groups, YearOfGroup)
            && (forall i :: 0 <= i < |groups| ==>
                  groups[i].items == Collections.Filter(items, YearIs(groups[i].year)) && groups[i].items != [])
            && (forall k :: 0 <= k < |items| ==> exists i :: 0 <= i < |groups| && groups[i].year == items[k].year)
  {
    var groups := SortDesc(unsorted, YearOfGroup);
    SortDescSorted(unsorted, YearOfGroup);
    forall i | 0 <= i < |groups|
      ensures groups[i].items == Collections.Filter(items, YearIs(groups[i].year)) && groups[i].items != []
    {
      assert groups[i] in multiset(unsorted);
    }
    forall k | 0 <= k < |items|
      ensures exists i :: 0 <= i < |groups| && groups[i].year == items[k].year
    {
      var j :| 0 <= j < |unsorted| && unsorted[j].year == items[k].year;
      assert unsorted[j] in multiset(groups);
    }
  }

  /** Each item sits in the group of its own year and in no other group. */
  lemma ItemInItsYearOnly(groups: seq<Group>, items: seq<Item>, i: nat, k: nat)
    requires forall i :: 0 <= i < |groups| ==> groups[i].items == Collections.Filter(items, YearIs(groups[i].year))
    requires i < |groups| && k < |items|
    ensures items[k] in groups[i].items <==> groups[i].year == items[k].year
  {
    Collections.FilterKeeps(items, YearIs(groups[i].year));
  }

  // ---------------------------------------------------------------------
  // One badge
  // ---------------------------------------------------------------------

  /** What one participation shows: the code, the attendance, the comment marker and the tooltip lines. */
  datatype Badge = Badge(code: string, attendance: string, hasComment: bool, tooltip: seq<string>)

  const UnknownCode := "UNKW"
  const PendingAttendance := "Pending"

  /** `value || fallback`: a missing or empty value gives the fallback. */
  function OrDefault(value: Option<string>, fallback: string): string {
    if value.Some? && value.value != "" then value.value else fallback
  }

  /** `p.specialComment && p.specialComment.trim().length > 0`. */
  predicate HasSpecialComment(p: Participation) {
    p.specialComment.Some? && Trim(p.specialComment.value) != ""
  }

  function BadgeOf(it: Item): (b: Badge)
    ensures b.code != "" && b.attendance != ""
    ensures b.code == UnknownCode <==> it.retreat.retreatCode.None? || it.retreat.retreatCode == Some("") || it.retreat.retreatCode == Some(UnknownCode)
    ensures b.hasComment <==> HasSpecialComment(it.participation)
    ensures |b.tooltip| == if b.hasComment then 2 else 1
    ensures b.tooltip[0] == it.retreat.name
    ensures b.hasComment ==> b.tooltip[1] == it.participation.specialComment.value
  {
    var p := it.participation;
    var has := HasSpecialComment(p);
    Badge(OrDefault(it.retreat.retreatCode, UnknownCode),
          OrDefault(p.attendance, PendingAttendance),
          has,
          [it.retreat.name] + if has then [p.specialComment.value] else [])
  }

  /** The comment marker shows exactly when the comment has a character other than white space. */
  lemma CommentMarkerIffNonBlank(p: Participation)
    ensures HasSpecialComment(p) <==>
              p.specialComment.Some? && exists i :: 0 <= i < |p.specialComment.value| && !IsSpace(p.specialComment.value[i])
  {
    if p.specialComment.Some? {
      TrimEmptyIffBlank(p.specialComment.value);
    }
  }

  /** Without a recorded attendance the badge reads "Pending"; with one, it shows it. */
  lemma AttendanceShown(it: Item)
    ensures BadgeOf(it).attendance == PendingAttendance <==>
              (it.participation.attendance.None? || it.participation.attendance.value in {"", PendingAttendance})
  {
  }
}
