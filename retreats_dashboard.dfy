// The retreats dashboard: the colour that marks a retreat's type, the
// statistics over all retreats (how many general, how many silent, how many
// not yet finalized), the current and past sections, and the end date shown
// on a retreat card.

module RetreatsDashboard {
  import opened Wrappers
  import opened Strings
  import Collections
  import Metadata

  type Retreat = Metadata.Retreat

  const Purple := "#6610f2"
  const Green := "#28a745"
  const Gray := "#6c757d"

  /** `type?.toLowerCase() || ""`. */
  function NormalizedType(retreatType: Option<string>): string {
    if retreatType.Some? then Lower(retreatType.value) else ""
  }

  /**
   * `getTypeColor`: silent retreats are purple even when the type also says
   * general, general ones green, and every other or missing type gray.
   */
  function TypeColor(retreatType: Option<string>): (color: string)
    ensures color == Purple <==> Contains(NormalizedType(retreatType), "silent")
    ensures color == Green <==>
              (!Contains(NormalizedType(retreatType), "silent") && Contains(NormalizedType(retreatType), "general"))
    ensures color == Gray <==>
              (!Contains(NormalizedType(retreatType), "silent") && !Contains(NormalizedType(retreatType), "general"))
    ensures retreatType.None? ==> color == Gray
  {
    var t := NormalizedType(retreatType);
    if Contains(t, "silent") then Purple
    else if Contains(t, "general") then Green
    else Gray
  }

  /** The colour ignores the case of the type. */
  lemma TypeColorIgnoresCase(a: string, b: string)
    requires Lower(a) == Lower(b)
    ensures TypeColor(Some(a)) == TypeColor(Some(b))
  {
  }

  // ---------------------------------------------------------------------
  // Statistics
  // ---------------------------------------------------------------------

  /** `r.retreatType?.toLowerCase().includes(word)`; a retreat without a type has none. */
  predicate HasType(r: Retreat, word: string) {
    r.retreatType.Some? && Contains(Lower(r.retreatType.value), word)
  }

  function IsGeneral(r: Retreat): bool { HasType(r, "general") }

  function IsSilent(r: Retreat): bool { HasType(r, "silent") }

  function IsUnfinalized(r: Retreat): bool { !r.finalized }

  /**
   * The General count: the retreats whose type mentions "general" in any
   * case. It is 0 exactly when no retreat's type does.
   */
  function GeneralCount(rs: seq<Retreat>): (n: nat)
    ensures n == |Collections.Filter(rs, IsGeneral)| && n <= |rs|
    ensures n == 0 <==> forall i :: 0 <= i < |rs| ==> !HasType(rs[i], "general")
  {
    Collections.CountIfZero(rs, IsGeneral);
    Collections.CountIf(rs, IsGeneral)
  }

  /** The Silent count, likewise for "silent". */
  function SilentCount(rs: seq<Retreat>): (n: nat)
    ensures n == |Collections.Filter(rs, IsSilent)| && n <= |rs|
    ensures n == 0 <==> forall i :: 0 <= i < |rs| ==> !HasType(rs[i], "silent")
  {
    Collections.CountIfZero(rs, IsSilent);
    Collections.CountIf(rs, IsSilent)
  }

  /** The Unfinalized count: 0 exactly when every retreat is finalized. */
  function UnfinalizedCount(rs: seq<Retreat>): (n: nat)
    ensures n == |Collections.Filter(rs, IsUnfinalized)| && n <= |rs|
    ensures n == 0 <==> forall i :: 0 <= i < |rs| ==> rs[i].finalized
  {
    Collections.CountIfZero(rs, IsUnfinalized);
    Collections.CountIf(rs, IsUnfinalized)
  }

  /**
   * A retreat whose type mentions both words is counted under both, so the
   * two counts together exceed the number of retreats of either kind by
   * exactly the number of retreats of both kinds.
   */
  lemma {:induction false} GeneralSilentOverlap(rs: seq<Retreat>)
    ensures GeneralCount(rs) + SilentCount(rs)
         == Collections.CountIf(rs, (r: Retreat) => IsGeneral(r) || IsSilent(r))
          + Collections.CountIf(rs, (r: Retreat) => IsGeneral(r) && IsSilent(r))
    decreases |rs|
  {
    if rs != [] {
      GeneralSilentOverlap(rs[1..]);
    }
  }

  /** The silent count is the number of purple cards; the green cards are the general ones that are not silent. */
  lemma {:induction false} CountsMatchColors(rs: seq<Retreat>)
    ensures SilentCount(rs) == Collections.CountIf(rs, (r: Retreat) => TypeColor(r.retreatType) == Purple)
    ensures Collections.CountIf(rs, (r: Retreat) => TypeColor(r.retreatType) == Green)
         == Collections.CountIf(rs, (r: Retreat) => IsGeneral(r) && !IsSilent(r))
    decreases |rs|
  {
    if rs != [] {
      CountsMatchColors(rs[1..]);
    }
  }

  /** Every retreat is either finalized or counted as unfinalized. */
  lemma UnfinalizedComplement(rs: seq<Retreat>)
    ensures UnfinalizedCount(rs) + Collections.CountIf(rs, (r: Retreat) => r.finalized) == |rs|
  {
    Collections.CountIfSplit(rs, (r: Retreat) => r.finalized, IsUnfinalized);
  }

  // ---------------------------------------------------------------------
  // Sections and cards
  // ---------------------------------------------------------------------

  /**
   * The Current Retreats section and the Past Retreats section: each keeps
   * the store's order, and together they hold every retreat once.
   */
  function Sections(rs: seq<Retreat>): (r: (seq<Retreat>, seq<Retreat>))
    ensures Collections.IsSubsequence(r.0, rs) && Collections.IsSubsequence(r.1, rs)
    ensures (forall i :: 0 <= i < |r.0| ==> r.0[i].current) && (forall i :: 0 <= i < |r.1| ==> !r.1[i].current)
    ensures multiset(r.0) + multiset(r.1) == multiset(rs)
  {
    Metadata.CurrentOldPartition(rs);
    (Metadata.CurrentRetreats(rs), Metadata.OldRetreats(rs))
  }

  /** "There are no current retreats" is shown exactly when no retreat is current. */
  lemma NoCurrentMessage(rs: seq<Retreat>)
    ensures Sections(rs).0 == [] <==> forall i :: 0 <= i < |rs| ==> !rs[i].current
  {
    var cur := Sections(rs).0;
    if cur == [] {
      forall i | 0 <= i < |rs|
        ensures !rs[i].current
      {
        assert rs[i] in multiset(rs);
      }
    } else {
      assert cur[0] in multiset(rs);
    }
  }

  /** The end date on a card: one day after the stored end date. */
  function DisplayedEndDate(endDate: int): (shown: int)
    ensures shown - endDate == Metadata.MsPerDay
  {
    endDate + 24 * 60 * 60 * 1000
  }

  /** For a retreat built from its attributes the card shows the day after its last day: one day more than its length. */
  lemma DisplayedEndIsInclusive(r: Retreat)
    requires Metadata.WellFormed(r)
    ensures DisplayedEndDate(r.endDate) == Metadata.GetEndDate(r.date, r.noOfDays + 1)
  {
  }
}
