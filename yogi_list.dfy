/**
 * The participant list of one retreat (admin/src/components/manager/YogiList.js):
 * the tiered selection score, the two comparators and the in-place sort, the
 * per-state counts of the tab bar, the filter chain, the page window and the
 * rooms a yogi may be moved to.
 *
 * A yogi is a DHIS2 tracked entity reduced to the attributes these rules read;
 * dates are integer milliseconds.
 */
module YogiList {
  import opened Wrappers
  import opened Strings
  import Sorting
  import Collections

  const SelectionPrioritySort := "selection-priority"
  const AgeSort := "age"

  /** The page size the list starts with. */
  const DefaultPageSize := 25

  /** An expression of interest: the selection state and when it was made. */
  datatype Application = Application(state: string, occurredAt: int)

  /** Participation in a retreat: the room, attendance and special comment. */
  datatype Participation = Participation(room: Option<string>, attendance: Option<string>, specialComment: Option<string>)

  datatype Yogi = Yogi(
    id: string,
    fullName: Option<string>,
    gender: string,
    maritalState: string,
    priority: Option<string>,
    dateOfBirth: int,
    mobile: Option<string>,
    nic: Option<string>,
    passport: Option<string>,
    applications: map<string, Application>,   // expressionOfInterests, by retreat code
    participation: map<string, Participation>) // by retreat code

  // ---------------------------------------------------------------------
  // Selection score and comparators
  // ---------------------------------------------------------------------

  /** The marital-state test of the score is exact (case-sensitive). */
  predicate IsReverend(y: Yogi) {
    y.maritalState == "reverend"
  }

  /** The priority test of the score ignores case. */
  predicate HasPriority(y: Yogi, p: string) {
    y.priority.Some? && Lower(y.priority.value) == p
  }

  /**
   * `getYogiSortScore`: reverends weigh 10^5, trust members 10^4 and trust
   * members' families 10^3; the two priority tiers exclude each other.
   */
  function Score(y: Yogi): (r: nat)
    ensures r in {0, 1000, 10000, 100000, 101000, 110000}
    ensures r >= 100000 <==> IsReverend(y)
    ensures r % 100000 == 10000 <==> HasPriority(y, "trust_member")
    ensures r % 100000 == 1000 <==> HasPriority(y, "trust_members_family")
    ensures r % 100000 == 0 <==> !HasPriority(y, "trust_member") && !HasPriority(y, "trust_members_family")
  {
    (if IsReverend(y) then 100000 else 0)
    + (if HasPriority(y, "trust_member") then 10000 else 0)
    + (if HasPriority(y, "trust_members_family") then 1000 else 0)
  }

  predicate Applied(code: string, y: Yogi) {
    code in y.applications
  }

  function AppliedAt(code: string, y: Yogi): int
    requires Applied(code, y)
  {
    y.applications[code].occurredAt
  }

  /**
   * `selectionPrioritySorter`: negative when `y1` goes first. The higher
   * score goes first; equal scores fall back to the earlier application,
   * which is the only case that reads the applications.
   */
  function SelectionCompare(code: string, y1: Yogi, y2: Yogi): (r: int)
    requires Score(y1) == Score(y2) ==> Applied(code, y1) && Applied(code, y2)
    ensures r < 0 <==> Score(y1) > Score(y2) || (Score(y1) == Score(y2) && AppliedAt(code, y1) < AppliedAt(code, y2))
    ensures r == 0 <==> Score(y1) == Score(y2) && AppliedAt(code, y1) == AppliedAt(code, y2)
  {
    if Score(y1) == Score(y2) then AppliedAt(code, y1) - AppliedAt(code, y2)
    else Score(y2) - Score(y1)
  }

  /**
   * `ageSorter`: the earlier date of birth goes first; equal dates of birth
   * fall back to the selection-priority comparator.
   */
  function AgeCompare(code: string, y1: Yogi, y2: Yogi): (r: int)
    requires y1.dateOfBirth == y2.dateOfBirth && Score(y1) == Score(y2) ==> Applied(code, y1) && Applied(code, y2)
    ensures r < 0 <==> y1.dateOfBirth < y2.dateOfBirth || (y1.dateOfBirth == y2.dateOfBirth && SelectionCompare(code, y1, y2) < 0)
    ensures r == 0 <==> y1.dateOfBirth == y2.dateOfBirth && SelectionCompare(code, y1, y2) == 0
  {
    var diff := y1.dateOfBirth - y2.dateOfBirth;
    if diff == 0 then SelectionCompare(code, y1, y2) else diff
  }

  /** Swapping the arguments flips the sign of both comparators. */
  lemma CompareAntisymmetric(code: string, y1: Yogi, y2: Yogi)
    requires Applied(code, y1) && Applied(code, y2)
    ensures SelectionCompare(code, y1, y2) < 0 <==> SelectionCompare(code, y2, y1) > 0
    ensures AgeCompare(code, y1, y2) < 0 <==> AgeCompare(code, y2, y1) > 0
  {
  }

  function AppliedTo(code: string): Yogi -> bool {
    y => Applied(code, y)
  }

  /** The sort keeps `y1` before `y2` when the comparator is not positive. */
  function SelectionLeq(code: string): (Yogi, Yogi) --> bool {
    (y1: Yogi, y2: Yogi) requires Applied(code, y1) && Applied(code, y2) => SelectionCompare(code, y1, y2) <= 0
  }

  function AgeLeq(code: string): (Yogi, Yogi) --> bool {
    (y1: Yogi, y2: Yogi) requires Applied(code, y1) && Applied(code, y2) => AgeCompare(code, y1, y2) <= 0
  }

  /** The selection-priority comparator orders the yogis who applied to the retreat totally. */
  lemma SelectionIsPreorder(code: string)
    ensures Sorting.TotalPreorder(AppliedTo(code), SelectionLeq(code))
  {
    forall x, y, z | Applied(code, x) && Applied(code, y) && Applied(code, z) &&
                     SelectionCompare(code, x, y) <= 0 && SelectionCompare(code, y, z) <= 0
      ensures SelectionCompare(code, x, z) <= 0
    {
    }
  }

  /** So does the age comparator. */
  lemma AgeIsPreorder(code: string)
    ensures Sorting.TotalPreorder(AppliedTo(code), AgeLeq(code))
  {
    forall x, y, z | Applied(code, x) && Applied(code, y) && Applied(code, z) &&
                     AgeCompare(code, x, y) <= 0 && AgeCompare(code, y, z) <= 0
      ensures AgeCompare(code, x, z) <= 0
    {
      assert SelectionCompare(code, x, y) <= 0 && SelectionCompare(code, y, z) <= 0 ==> SelectionCompare(code, x, z) <= 0;
    }
  }

  predicate AllApplied(code: string, s: seq<Yogi>) {
    forall i :: 0 <= i < |s| ==> Applied(code, s[i])
  }

  predicate SelectionSorted(code: string, s: seq<Yogi>) {
    AllApplied(code, s) && forall i, j :: 0 <= i < j < |s| ==> SelectionCompare(code, s[i], s[j]) <= 0
  }

  predicate AgeSorted(code: string, s: seq<Yogi>) {
    AllApplied(code, s) && forall i, j :: 0 <= i < j < |s| ==> AgeCompare(code, s[i], s[j]) <= 0
  }

  /**
   * `sortYogiList`: sorts the caller's array in place under the chosen
   * comparator; any other mode leaves it untouched. A list already in
   * order stays as it is.
   */
  method SortYogiList(a: array<Yogi>, code: string, sortBy: string)
    requires sortBy == SelectionPrioritySort || sortBy == AgeSort ==> AllApplied(code, a[..])
    modifies a
    ensures multiset(a[..]) == multiset(old(a[..]))
    ensures sortBy == SelectionPrioritySort ==> SelectionSorted(code, a[..])
    ensures sortBy == AgeSort ==> AgeSorted(code, a[..])
    ensures sortBy == SelectionPrioritySort && SelectionSorted(code, old(a[..])) ==> a[..] == old(a[..])
    ensures sortBy == AgeSort && AgeSorted(code, old(a[..])) ==> a[..] == old(a[..])
    ensures sortBy != SelectionPrioritySort && sortBy != AgeSort ==> a[..] == old(a[..])
  {
    if sortBy == SelectionPrioritySort {
      SelectionIsPreorder(code);
      Sorting.SortInPlace(a, AppliedTo(code), SelectionLeq(code));
    } else if sortBy == AgeSort {
      AgeIsPreorder(code);
      Sorting.SortInPlace(a, AppliedTo(code), AgeLeq(code));
    }
  }

  /** In selection order every reverend precedes every other yogi. */
  lemma ReverendsFirst(code: string, s: seq<Yogi>, i: nat, j: nat)
    requires SelectionSorted(code, s)
    requires i < j < |s| && IsReverend(s[j])
    ensures IsReverend(s[i])
  {
    assert SelectionCompare(code, s[i], s[j]) <= 0;
  }

  /**
   * Among yogis who are not reverends, trust members precede trust members'
   * families, who precede everyone else.
   */
  lemma PriorityTiersInOrder(code: string, s: seq<Yogi>, i: nat, j: nat)
    requires SelectionSorted(code, s)
    requires i < j < |s| && !IsReverend(s[i])
    ensures HasPriority(s[j], "trust_member") ==> HasPriority(s[i], "trust_member")
    ensures HasPriority(s[j], "trust_members_family") ==>
              HasPriority(s[i], "trust_member") || HasPriority(s[i], "trust_members_family")
  {
    assert SelectionCompare(code, s[i], s[j]) <= 0;
  }

  /** Yogis with equal scores are in the order they applied. */
  lemma EqualScoresByApplication(code: string, s: seq<Yogi>, i: nat, j: nat)
    requires SelectionSorted(code, s)
    requires i < j < |s| && Score(s[i]) == Score(s[j])
    ensures AppliedAt(code, s[i]) <= AppliedAt(code, s[j])
  {
    assert SelectionCompare(code, s[i], s[j]) <= 0;
  }

  /** In age order the older yogi comes first; equal birth dates go by selection priority. */
  lemma AgeOrder(code: string, s: seq<Yogi>, i: nat, j: nat)
    requires AgeSorted(code, s)
    requires i < j < |s|
    ensures s[i].dateOfBirth <= s[j].dateOfBirth
    ensures s[i].dateOfBirth == s[j].dateOfBirth ==> SelectionCompare(code, s[i], s[j]) <= 0
  {
    assert AgeCompare(code, s[i], s[j]) <= 0;
  }

  // ---------------------------------------------------------------------
  // Per-state counts (`countByState`)
  // ---------------------------------------------------------------------

  /** `expressionOfInterests[code]?.state`; `None` stands for `undefined`. */
  function StateOf(code: string, y: Yogi): Option<string> {
    if code in y.applications then Some(y.applications[code].state) else None
  }

  function HasState(code: string, k: Option<string>): Yogi -> bool {
    y => StateOf(code, y) == k
  }

  /** The counts after visiting `s` from left to right. */
  function Counts(code: string, s: seq<Yogi>): (m: map<Option<string>, nat>)
    ensures forall k :: k in m ==> m[k] >= 1
    decreases |s|
  {
    if s == [] then map[]
    else
      var m := Counts(code, s[..|s| - 1]);
      var k := StateOf(code, s[|s| - 1]);
      m[k := Collections.GetOrZero(m, k) + 1]
  }

  /** The tab-bar counts: one entry per state met, incremented once per yogi. */
  method CountByState(code: string, s: seq<Yogi>) returns (m: map<Option<string>, nat>)
    ensures m == Counts(code, s)
  {
    m := map[];
    for i := 0 to |s|
      invariant m == Counts(code, s[..i])
    {
      assert s[..i + 1][..i] == s[..i];
      var k := StateOf(code, s[i]);
      if k !in m {
        m := m[k := 0];
      }
      m := m[k := m[k] + 1];
    }
    assert s[..|s|] == s;
  }

  /** Each bucket holds the number of yogis in that state (0 when absent). */
  lemma {:induction false} CountsBucket(code: string, s: seq<Yogi>, k: Option<string>)
    ensures Collections.GetOrZero(Counts(code, s), k) == Collections.CountIf(s, HasState(code, k))
    decreases |s|
  {
    if s != [] {
      var init := s[..|s| - 1];
      CountsBucket(code, init, k);
      assert init + [s[|s| - 1]] == s;
      Collections.CountIfSnoc(init, s[|s| - 1], HasState(code, k));
    }
  }

  /** The states in the order they are first met, the order of the object's keys. */
  function FirstSeen(code: string, s: seq<Yogi>): (keys: seq<Option<string>>)
    ensures Collections.NoDuplicates(keys)
    ensures forall k :: k in keys <==> k in Counts(code, s)
    decreases |s|
  {
    if s == [] then []
    else
      var keys := FirstSeen(code, s[..|s| - 1]);
      var k := StateOf(code, s[|s| - 1]);
      if k in keys then keys else keys + [k]
  }

  /** Summed over the tabs, the counts add up to the length of the list. */
  lemma {:induction false} CountsTotal(code: string, s: seq<Yogi>)
    ensures Collections.SumOver(Counts(code, s), FirstSeen(code, s)) == |s|
    decreases |s|
  {
    if s != [] {
      var init := s[..|s| - 1];
      var m := Counts(code, init);
      var keys := FirstSeen(code, init);
      var k := StateOf(code, s[|s| - 1]);
      var m' := m[k := Collections.GetOrZero(m, k) + 1];
      assert Counts(code, s) == m';
      CountsTotal(code, init);
      Collections.SumOverBump(m, keys, k);
      if k in keys {
        assert FirstSeen(code, s) == keys;
      } else {
        assert FirstSeen(code, s) == keys + [k];
        assert k !in m;
        Collections.SumOverSnoc(m', keys, k);
      }
    }
  }

  // ---------------------------------------------------------------------
  // Filter chain (`filteredYogis`)
  // ---------------------------------------------------------------------

  /** The check boxes above the list: unchecked hides that group. */
  datatype Filters = Filters(male: bool, female: bool, reverend: bool)

  predicate InState(code: string, state: string, y: Yogi) {
    StateOf(code, y) == Some(state)
  }

  predicate MaleShown(f: Filters, y: Yogi) {
    f.male || Lower(y.gender) != "male"
  }

  predicate FemaleShown(f: Filters, y: Yogi) {
    f.female || Lower(y.gender) != "female"
  }

  predicate ReverendShown(f: Filters, y: Yogi) {
    f.reverend || Lower(y.maritalState) != "reverend"
  }

  /**
   * The search box: an empty query matches everyone; otherwise one of the
   * name, mobile, NIC or passport contains the query, ignoring case.
   */
  predicate MatchesQuery(q: string, y: Yogi) {
    q == [] ||
    var lq := Lower(q);
    Contains(Lower(y.fullName.GetOr("")), lq) || Contains(Lower(y.mobile.GetOr("")), lq) ||
    Contains(Lower(y.nic.GetOr("")), lq) || Contains(Lower(y.passport.GetOr("")), lq)
  }

  predicate Shown(code: string, state: string, f: Filters, q: string, y: Yogi) {
    InState(code, state, y) && MaleShown(f, y) && FemaleShown(f, y) && ReverendShown(f, y) && MatchesQuery(q, y)
  }

  function ShownBy(code: string, state: string, f: Filters, q: string): Yogi -> bool {
    y => Shown(code, state, f, q, y)
  }

  /**
   * The five filters in a row. The result keeps the list's order and holds
   * exactly the yogis that pass every one of them.
   */
  function FilterYogis(code: string, s: seq<Yogi>, state: string, f: Filters, q: string): (r: seq<Yogi>)
    requires AllApplied(code, s)
    ensures Collections.IsSubsequence(r, s)
    ensures forall i :: 0 <= i < |r| ==> Shown(code, state, f, q, r[i])
    ensures forall i :: 0 <= i < |s| ==> (s[i] in r <==> Shown(code, state, f, q, s[i]))
    ensures r == Collections.Filter(s, ShownBy(code, state, f, q))
  {
    var pState := (y: Yogi) => InState(code, state, y);
    var pMale := (y: Yogi) => MaleShown(f, y);
    var pFemale := (y: Yogi) => FemaleShown(f, y);
    var pReverend := (y: Yogi) => ReverendShown(f, y);
    var pQuery := (y: Yogi) => MatchesQuery(q, y);
    var r := Collections.Filter(Collections.Filter(Collections.Filter(Collections.Filter(Collections.Filter(
      s, pState), pMale), pFemale), pReverend), pQuery);
    ghost var p2 := (y: Yogi) => pState(y) && pMale(y);
    ghost var p3 := (y: Yogi) => p2(y) && pFemale(y);
    ghost var p4 := (y: Yogi) => p3(y) && pReverend(y);
    ghost var p5 := ShownBy(code, state, f, q);
    Collections.FilterFilter(s, pState, pMale, p2);
    Collections.FilterFilter(s, p2, pFemale, p3);
    Collections.FilterFilter(s, p3, pReverend, p4);
    Collections.FilterFilter(s, p4, pQuery, p5);
    Collections.FilterKeeps(s, p5);
    r
  }

  // ---------------------------------------------------------------------
  // Page window
  // ---------------------------------------------------------------------

  /** Row `i` of the filtered list is rendered on page `page`. */
  predicate OnPage(i: int, page: int, size: int) {
    (page - 1) * size <= i < page * size
  }

  /** `Math.ceil(total / pageSize)`. */
  function PageCount(total: nat, size: nat): (n: nat)
    requires size > 0
    ensures n * size >= total
    ensures n > 0 ==> (n - 1) * size < total
  {
    (total + size - 1) / size
  }

  /** Every row is on exactly one page, and that page is one the pager offers. */
  lemma PageOfRow(i: nat, total: nat, size: nat)
    requires size > 0 && i < total
    ensures OnPage(i, i / size + 1, size)
    ensures 1 <= i / size + 1 <= PageCount(total, size)
    ensures forall p :: OnPage(i, p, size) ==> p == i / size + 1
  {
    var p := i / size + 1;
    assert (p - 1) * size <= i < p * size;
    forall q | OnPage(i, q, size)
      ensures q == p
    {
      if q > p {
        MulMono(p, q - 1, size);
      }
    }
    var n := PageCount(total, size);
    if n < p {
      MulMono(n, p - 1, size);
    }
  }

  lemma MulMono(a: int, b: int, c: nat)
    requires a <= b
    ensures a * c <= b * c
  {
  }

  /** The rows rendered from index `i` on: the map over the rows, dropping the `null`s. */
  function RenderedFrom(s: seq<Yogi>, page: int, size: int, i: nat): (r: seq<Yogi>)
    requires i <= |s|
    decreases |s| - i
  {
    if i == |s| then []
    else (if OnPage(i, page, size) then [s[i]] else []) + RenderedFrom(s, page, size, i + 1)
  }

  function Clamp(x: int, n: nat): (r: nat)
    ensures r <= n
  {
    if x < 0 then 0 else if x > n then n else x
  }

  /** The rendered rows are one contiguous slice of the filtered list. */
  lemma {:induction false} RenderedIsSlice(s: seq<Yogi>, page: int, size: nat, i: nat)
    requires i <= |s|
    ensures var lo, hi := Clamp((page - 1) * size, |s|), Clamp(page * size, |s|);
            var from := if lo < i then i else lo;
            RenderedFrom(s, page, size, i) == if from < hi then s[from..hi] else []
    decreases |s| - i
  {
    if i < |s| {
      var lo, hi := Clamp((page - 1) * size, |s|), Clamp(page * size, |s|);
      assert lo <= hi by { MulMono(page - 1, page, size); }
      assert OnPage(i, page, size) <==> lo <= i < hi;
      RenderedIsSlice(s, page, size, i + 1);
      if lo <= i < hi {
        assert [s[i]] + (if i + 1 < hi then s[i + 1..hi] else []) == s[i..hi];
      }
    }
  }

  // ---------------------------------------------------------------------
  // Rooms (`RoomSelect`)
  // ---------------------------------------------------------------------

  datatype Room = Room(code: string, name: string, location: string)

  /** `participation[code]?.room`. */
  function RoomOf(code: string, y: Yogi): Option<string> {
    if code in y.participation then y.participation[code].room else None
  }

  /** The rooms held by a yogi other than `yogiId` in this retreat. */
  function RoomsAssignedToOthers(all: seq<Yogi>, yogiId: string, code: string): (taken: set<string>)
    ensures forall rc :: rc in taken <==>
              exists i :: 0 <= i < |all| && all[i].id != yogiId && RoomOf(code, all[i]) == Some(rc)
  {
    if all == [] then {}
    else
      var rest := RoomsAssignedToOthers(all[1..], yogiId, code);
      assert forall i :: 1 <= i < |all| ==> all[i] == all[1..][i - 1];
      if all[0].id != yogiId && RoomOf(code, all[0]).Some? then {RoomOf(code, all[0]).value} + rest else rest
  }

  /**
   * The rooms offered to a yogi: the retreat location's rooms, in list
   * order, less those another yogi holds. The yogi's own room is not held
   * against them.
   */
  function RoomOptions(rooms: seq<Room>, location: string, taken: set<string>): (r: seq<Room>)
    ensures Collections.IsSubsequence(r, rooms)
    ensures forall i :: 0 <= i < |rooms| ==> (rooms[i] in r <==> rooms[i].location == location && rooms[i].code !in taken)
    ensures forall i :: 0 <= i < |r| ==> r[i].location == location && r[i].code !in taken
  {
    var atLocation := (room: Room) => room.location == location;
    var free := (room: Room) => room.code !in taken;
    ghost var both := (room: Room) => atLocation(room) && free(room);
    Collections.FilterFilter(rooms, atLocation, free, both);
    Collections.FilterKeeps(rooms, both);
    Collections.Filter(Collections.Filter(rooms, atLocation), free)
  }

  /** A yogi's own room is offered to them unless another yogi holds it too. */
  lemma OwnRoomOffered(all: seq<Yogi>, rooms: seq<Room>, code: string, location: string, y: Yogi, k: nat)
    requires k < |rooms| && rooms[k].location == location
    requires RoomOf(code, y) == Some(rooms[k].code)
    requires forall i :: 0 <= i < |all| && all[i].id != y.id ==> RoomOf(code, all[i]) != Some(rooms[k].code)
    ensures rooms[k] in RoomOptions(rooms, location, RoomsAssignedToOthers(all, y.id, code))
  {
  }
}
