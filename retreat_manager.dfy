// The retreat page's downloads and its Finalise button: the yogi list of
// one gender and one selection state, sorted in selection-priority order,
// numbered from 01 and written either as CSV rows (name, NIC, passport,
// phone and room) under a header or as plain "NN name" lines; the file
// name; and when finalising is not yet offered.
//
// Fetching the yogis and saving the file are not part of this model: the
// yogis arrive as a sequence, and the method returns the file's lines,
// text and name.

module RetreatManager {
  import opened Wrappers
  import opened Strings
  import Collections
  import YogiList
  import Metadata

  type Yogi = YogiList.Yogi

  const CsvFormat := "csv"

  /** The CSV header row: an empty column above the row numbers, then the five data columns. */
  const CsvHeader := ",Name,NIC,Passport,Phone,Room"

  // ---------------------------------------------------------------------
  // Rows
  // ---------------------------------------------------------------------

  /**
   * The yogis written: the gender attribute is exactly `gender`, and the
   * yogi applied to the retreat with selection state `state`.
   */
  function Selected(code: string, gender: string, state: string, y: Yogi): (r: bool)
    ensures r <==> y.gender == gender && code in y.applications && y.applications[code].state == state
  {
    y.gender == gender && YogiList.StateOf(code, y) == Some(state)
  }

  function IsSelected(code: string, gender: string, state: string): Yogi -> bool {
    y => Selected(code, gender, state, y)
  }

  /** `value?.trim() || ""`. */
  function TrimmedOrEmpty(value: Option<string>): string {
    if value.Some? then Trim(value.value) else ""
  }

  /** `participation[code]?.room || "N/A"`. */
  function RoomText(code: string, y: Yogi): string {
    if code in y.participation && y.participation[code].room.Some? && y.participation[code].room.value != []
    then y.participation[code].room.value
    else "N/A"
  }

  /** The six CSV fields of row `n`. */
  function CsvFields(n: nat, code: string, y: Yogi): (fields: seq<string>)
    ensures |fields| == 6 && fields[0] == ZeroPad2(n)
  {
    [ZeroPad2(n), Trim(FullName(y)), TrimmedOrEmpty(y.nic), TrimmedOrEmpty(y.passport),
     TrimmedOrEmpty(y.mobile), RoomText(code, y)]
  }

  /** The full name of a yogi that is written; every such yogi has one (see `NamesPresent`). */
  function FullName(y: Yogi): string {
    y.fullName.GetOr("")
  }

  /**
   * Row `n` of the download: six comma-joined fields, or the number and the
   * trimmed name. Either way it starts with the row number, padded to at
   * least two digits, which reads back as `n`.
   */
  function Row(n: nat, format: string, code: string, y: Yogi): (row: string)
    ensures |ZeroPad2(n)| >= 2 && StartsWith(row, ZeroPad2(n)) && DecimalValue(ZeroPad2(n)) == n
    ensures format != CsvFormat ==> row == ZeroPad2(n) + " " + Trim(FullName(y))
  {
    if format == CsvFormat then
      var fields := CsvFields(n, code, y);
      assert JoinWith(fields, ',') == fields[0] + [','] + JoinWith(fields[1..], ',');
      JoinWith(fields, ',')
    else ZeroPad2(n) + " " + Trim(FullName(y))
  }

  /** Every yogi that will be written has a full name (its `trim()` would throw otherwise). */
  predicate NamesPresent(code: string, gender: string, state: string, s: seq<Yogi>) {
    forall i :: 0 <= i < |s| && Selected(code, gender, state, s[i]) ==> s[i].fullName.Some?
  }

  // The numbering is generic in what is written, so that the proofs about
  // it do not see how a row is rendered.

  /** `render(k, x)` for the `k`-th element of `s` that meets `keep`, counting from 1, in order. */
  function Numbered<T>(s: seq<T>, keep: T -> bool, render: (nat, T) -> string): seq<string>
    decreases |s|
  {
    if s == [] then []
    else
      var prev := Numbered(s[..|s| - 1], keep, render);
      var x := s[|s| - 1];
      if keep(x) then prev + [render(|prev| + 1, x)] else prev
  }

  /** Adding an element at the end adds its line, numbered after the others, when it is kept. */
  lemma NumberedSnoc<T>(init: seq<T>, x: T, keep: T -> bool, render: (nat, T) -> string)
    ensures var prev := Numbered(init, keep, render);
            Numbered(init + [x], keep, render) == if keep(x) then prev + [render(|prev| + 1, x)] else prev
  {
    var s := init + [x];
    assert s[..|s| - 1] == init && s[|s| - 1] == x;
  }

  lemma FilterSnoc<T>(init: seq<T>, x: T, p: T -> bool)
    ensures Collections.Filter(init + [x], p) == Collections.Filter(init, p) + (if p(x) then [x] else [])
  {
    Collections.FilterConcat(init, [x], p);
    assert [x][1..] == [];
  }

  /** Line `k` is rendered, with number `k + 1`, from the `k`-th kept element. */
  predicate NumberedMatch<T>(lines: seq<string>, kept: seq<T>, render: (nat, T) -> string) {
    |lines| == |kept| && forall k :: 0 <= k < |lines| ==> lines[k] == render(k + 1, kept[k])
  }

  /** One line per kept element, in order, numbered 1, 2, ... */
  lemma {:induction false} NumberedKept<T>(s: seq<T>, keep: T -> bool, render: (nat, T) -> string)
    ensures NumberedMatch(Numbered(s, keep, render), Collections.Filter(s, keep), render)
    decreases |s|
  {
    if s != [] {
      var init := s[..|s| - 1];
      var x := s[|s| - 1];
      assert init + [x] == s;
      NumberedSnoc(init, x, keep, render);
      NumberedKept(init, keep, render);
      FilterSnoc(init, x, keep);
      NumberedStep(Numbered(init, keep, render), Collections.Filter(init, keep), x, keep(x), render);
    }
  }

  lemma NumberedStep<T>(prev: seq<string>, kept: seq<T>, x: T, isKept: bool, render: (nat, T) -> string)
    requires NumberedMatch(prev, kept, render)
    ensures isKept ==> NumberedMatch(prev + [render(|prev| + 1, x)], kept + [x], render)
    ensures !isKept ==> NumberedMatch(prev, kept + [], render)
  {
    assert kept + [] == kept;
  }

  lemma {:induction false} FilterLength<T>(s: seq<T>, p: T -> bool)
    ensures |Collections.Filter(s, p)| == Collections.CountIf(s, p)
    decreases |s|
  {
    if s != [] {
      FilterLength(s[1..], p);
    }
  }

  function RowOf(format: string, code: string): (nat, Yogi) -> string {
    (n: nat, y: Yogi) => Row(n, format, code, y)
  }

  /** The rows written for `s`, in its order, numbered from 1. */
  function Rows(s: seq<Yogi>, code: string, gender: string, state: string, format: string): seq<string> {
    Numbered(s, IsSelected(code, gender, state), RowOf(format, code))
  }

  /**
   * One row per selected yogi, in the list's order: row `k` is the row
   * numbered `k + 1` for the `k`-th selected yogi, and there are as many
   * rows as selected yogis.
   */
  lemma RowsOfSelected(s: seq<Yogi>, code: string, gender: string, state: string, format: string)
    ensures var rows := Rows(s, code, gender, state, format);
            var sel := Collections.Filter(s, IsSelected(code, gender, state));
            && |rows| == |sel| == Collections.CountIf(s, IsSelected(code, gender, state))
            && forall k :: 0 <= k < |rows| ==> rows[k] == Row(k + 1, format, code, sel[k])
  {
    NumberedKept(s, IsSelected(code, gender, state), RowOf(format, code));
    FilterLength(s, IsSelected(code, gender, state));
  }

  /** With no comma inside any field, a CSV row splits back into its six fields. */
  lemma CsvRowFields(n: nat, code: string, y: Yogi)
    requires forall i :: 0 <= i < 6 ==> Free(CsvFields(n, code, y)[i], ',')
    ensures SplitOn(Row(n, CsvFormat, code, y), ',') == CsvFields(n, code, y)
  {
    SplitJoin(CsvFields(n, code, y), ',');
  }

  /** The lines of the download: the header first for CSV, then the rows. */
  function Lines(s: seq<Yogi>, code: string, gender: string, state: string, format: string): (lines: seq<string>)
    ensures |lines| == (if format == CsvFormat then 1 else 0) + Collections.CountIf(s, IsSelected(code, gender, state))
  {
    RowsOfSelected(s, code, gender, state, format);
    (if format == CsvFormat then [CsvHeader] else []) + Rows(s, code, gender, state, format)
  }

  /**
   * `${retreatCode}_${gender}_${selectionState}.${format}`: the retreat code
   * and an underscore first, the format as the extension last, and three
   * separators in all.
   */
  function FileName(code: string, gender: string, state: string, format: string): (name: string)
    ensures StartsWith(name, code + "_") && EndsWith(name, "." + format)
    ensures |name| == |code| + |gender| + |state| + |format| + 3
  {
    var name := code + "_" + gender + "_" + state + "." + format;
    assert name[..|code| + 1] == code + "_";
    assert name[|name| - |format| - 1..] == "." + format;
    name
  }

  /** The file name gives back the retreat code, the gender and the state when none of them holds '_'. */
  lemma FileNameParts(code: string, gender: string, state: string, format: string)
    requires Free(code, '_') && Free(gender, '_') && Free(state, '_') && Free(format, '_')
    ensures SplitOn(FileName(code, gender, state, format), '_') == [code, gender, state + "." + format]
  {
    var parts := [code, gender, state + "." + format];
    assert Free(parts[2], '_');
    SplitJoin(parts, '_');
    assert JoinWith(parts[2..], '_') == parts[2];
    assert JoinWith(parts, '_') == FileName(code, gender, state, format);
  }

  // ---------------------------------------------------------------------
  // downloadYogiList
  // ---------------------------------------------------------------------

  /**
   * `downloadYogiList`: copies the yogis into a new array, sorts it in
   * selection-priority order, then walks it, writing a numbered row for
   * each yogi of the requested gender and state. The file holds the lines
   * joined by newlines.
   */
  method DownloadYogiList(yogis: seq<Yogi>, code: string, gender: string, state: string, format: string)
      returns (order: seq<Yogi>, lines: seq<string>, text: string, name: string)
    requires YogiList.AllApplied(code, yogis)
    requires NamesPresent(code, gender, state, yogis)
    ensures multiset(order) == multiset(yogis)
    ensures YogiList.SelectionSorted(code, order)
    ensures lines == Lines(order, code, gender, state, format)
    ensures text == JoinWith(lines, '\n')
    ensures name == FileName(code, gender, state, format)
  {
    order := SortedCopy(yogis, code);
    lines := WriteRows(order, if format == CsvFormat then [CsvHeader] else [], IsSelected(code, gender, state), RowOf(format, code));
    text := JoinWith(lines, '\n');
    name := FileName(code, gender, state, format);
  }

  /** The loop of `downloadYogiList`: a line, numbered by a running index, for each kept element. */
  method WriteRows<T>(s: seq<T>, header: seq<string>, keep: T -> bool, render: (nat, T) -> string)
      returns (lines: seq<string>)
    ensures lines == header + Numbered(s, keep, render)
  {
    lines := header;
    var index: nat := 0;
    var i := 0;
    while i < |s|
      invariant 0 <= i <= |s|
      invariant lines == header + Numbered(s[..i], keep, render)
      invariant index == |Numbered(s[..i], keep, render)|
    {
      var x := s[i];
      assert s[..i + 1] == s[..i] + [x];
      NumberedSnoc(s[..i], x, keep, render);
      if keep(x) {
        index := index + 1;
        lines := lines + [render(index, x)];
      }
      i := i + 1;
    }
    assert s[..i] == s;
  }

  /** `yogis.map(...)` into a fresh array, sorted by `sortYogiList` with its default mode. */
  method SortedCopy(yogis: seq<Yogi>, code: string) returns (order: seq<Yogi>)
    requires YogiList.AllApplied(code, yogis)
    ensures multiset(order) == multiset(yogis)
    ensures YogiList.SelectionSorted(code, order)
  {
    var a := new Yogi[|yogis|](i requires 0 <= i < |yogis| => yogis[i]);
    assert a[..] == yogis;
    YogiList.SortYogiList(a, code, YogiList.SelectionPrioritySort);
    order := a[..];
  }

  // ---------------------------------------------------------------------
  // Finalise
  // ---------------------------------------------------------------------

  /**
   * The Finalise button is disabled before `noOfDays` whole days have passed
   * since the start, or once finalized: it is enabled exactly for a retreat
   * not yet finalized whose days have all passed.
   */
  function FinaliseDisabled(now: int, r: Metadata.Retreat): (disabled: bool)
    ensures !disabled <==> !r.finalized && now >= r.date + r.noOfDays * Metadata.MsPerDay
  {
    now - r.date < r.noOfDays * 24 * 60 * 60 * 1000 || r.finalized
  }

  /** For a retreat built from its attributes, finalising is offered exactly from its end date on, until it is finalized. */
  lemma FinaliseFromEndDate(now: int, r: Metadata.Retreat)
    requires Metadata.WellFormed(r)
    ensures FinaliseDisabled(now, r) <==> now < r.endDate || r.finalized
  {
  }
}
