/** `apply_filters`: the sidebar's selections narrow the joined enrollment table row by row. */
module Filters {
  import opened Outcomes
  import opened Tables
  import Cleansing
  import Reference

  const CountyCol: string := "County"
  const PeriodCol: string := "Period"

  /** The sidebar's choices: four membership lists (an empty list means "no filter") and the two
      ends of the period range, either of which may be unset. */
  datatype Selection = Selection(
    parents: seq<Cell>, states: seq<Cell>, counties: seq<Cell>, planTypes: seq<Cell>,
    start: Option<Cell>, end: Option<Cell>)

  /** `a <= b` on timestamps: dates compare by year, then month, then day. */
  predicate NotAfter(a: Cell, b: Cell) {
    && a.Date? && b.Date?
    && (a.year < b.year || (a.year == b.year && (a.month < b.month || (a.month == b.month && a.day <= b.day))))
  }

  /** The range applies only when both ends are set (`if s and e`). */
  predicate RangeSet(f: Selection) {
    f.start.Some? && f.end.Some?
  }

  /** A row passes a membership list: the list is empty, or the row's cell under `name` is listed. */
  predicate Matches(values: seq<Cell>, cols: seq<string>, name: string, row: seq<Cell>) {
    values == [] || (name in cols && IndexOf(cols, name) < |row| && row[IndexOf(cols, name)] in values)
  }

  /** A row passes the period range: the range is not set, or the row's `Period` lies inside it,
      both ends included. */
  predicate InPeriod(f: Selection, cols: seq<string>, row: seq<Cell>) {
    !RangeSet(f) ||
    (PeriodCol in cols && IndexOf(cols, PeriodCol) < |row|
     && NotAfter(f.start.value, row[IndexOf(cols, PeriodCol)]) && NotAfter(row[IndexOf(cols, PeriodCol)], f.end.value))
  }

  /** Everything a row must satisfy to stay. */
  predicate Admits(f: Selection, cols: seq<string>, row: seq<Cell>) {
    && Matches(f.parents, cols, Reference.ParentCol, row)
    && Matches(f.states, cols, Cleansing.StateCol, row)
    && Matches(f.counties, cols, CountyCol, row)
    && Matches(f.planTypes, cols, Reference.PlanTypeCol, row)
    && InPeriod(f, cols, row)
  }

  /** Every column an active filter reads exists, once (a missing one raises, a repeated one yields a
      frame rather than a column). */
  predicate Applicable(t: Table, f: Selection) {
    && (f.parents != [] ==> Count(t.cols, Reference.ParentCol) == 1)
    && (f.states != [] ==> Count(t.cols, Cleansing.StateCol) == 1)
    && (f.counties != [] ==> Count(t.cols, CountyCol) == 1)
    && (f.planTypes != [] ==> Count(t.cols, Reference.PlanTypeCol) == 1)
    && (RangeSet(f) ==> Count(t.cols, PeriodCol) == 1)
  }

  /** `if values: sub = sub[sub[name].isin(values)]`. */
  function ByMember(t: Table, name: string, values: seq<Cell>): (r: Table)
    requires WellFormed(t)
    ensures WellFormed(r) && r.cols == t.cols
  {
    if values == [] then t else FilterRows(t, row => Matches(values, t.cols, name, row))
  }

  /** `if s and e: sub = sub[(sub["Period"] >= s) & (sub["Period"] <= e)]`. */
  function ByPeriod(t: Table, f: Selection): (r: Table)
    requires WellFormed(t)
    ensures WellFormed(r) && r.cols == t.cols
  {
    if RangeSet(f) then FilterRows(t, row => InPeriod(f, t.cols, row)) else t
  }

  /** `apply_filters`: the four membership filters in order, then the period range. */
  function ApplyFilters(t: Table, f: Selection): (r: Table)
    requires WellFormed(t) && Applicable(t, f)
    ensures WellFormed(r) && r.cols == t.cols
  {
    var byParent := ByMember(t, Reference.ParentCol, f.parents);
    var byState := ByMember(byParent, Cleansing.StateCol, f.states);
    var byCounty := ByMember(byState, CountyCol, f.counties);
    var byPlanType := ByMember(byCounty, Reference.PlanTypeCol, f.planTypes);
    ByPeriod(byPlanType, f)
  }

  /** A membership step keeps exactly the rows that pass its list, in order. */
  lemma ByMemberKeeps(t: Table, cols: seq<string>, name: string, values: seq<Cell>)
    requires WellFormed(t) && t.cols == cols
    ensures ByMember(t, name, values).rows == Keep(t.rows, row => Matches(values, cols, name, row))
  {
    if values == [] {
      KeepAll(t.rows, row => Matches(values, cols, name, row));
    }
  }

  /** The period step keeps exactly the rows inside the range, in order. */
  lemma ByPeriodKeeps(t: Table, cols: seq<string>, f: Selection)
    requires WellFormed(t) && t.cols == cols
    ensures ByPeriod(t, f).rows == Keep(t.rows, row => InPeriod(f, cols, row))
  {
    if !RangeSet(f) {
      KeepAll(t.rows, row => InPeriod(f, cols, row));
    }
  }

  /** Five filters in a row keep what their conjunction keeps. */
  lemma {:induction false} KeepFive<T>(s0: seq<T>, s1: seq<T>, s2: seq<T>, s3: seq<T>, s4: seq<T>, s5: seq<T>,
                                       p1: T -> bool, p2: T -> bool, p3: T -> bool, p4: T -> bool, p5: T -> bool,
                                       all: T -> bool)
    requires s1 == Keep(s0, p1) && s2 == Keep(s1, p2) && s3 == Keep(s2, p3)
    requires s4 == Keep(s3, p4) && s5 == Keep(s4, p5)
    requires forall x | x in s0 :: all(x) == (p1(x) && p2(x) && p3(x) && p4(x) && p5(x))
    ensures s5 == Keep(s0, all)
  {
    var q2 := x => p1(x) && p2(x);
    var q3 := x => q2(x) && p3(x);
    var q4 := x => q3(x) && p4(x);
    var q5 := x => q4(x) && p5(x);
    KeepKeep(s0, p1, p2);
    assert s2 == Keep(s0, q2);
    KeepKeep(s0, q2, p3);
    assert s3 == Keep(s0, q3);
    KeepKeep(s0, q3, p4);
    assert s4 == Keep(s0, q4);
    KeepKeep(s0, q4, p5);
    KeepSame(s0, q5, all);
  }

  /** The filtered table is the original with exactly the admitted rows kept, in their order. */
  lemma ApplyFiltersKeeps(t: Table, f: Selection)
    requires WellFormed(t) && Applicable(t, f)
    ensures ApplyFilters(t, f).rows == Keep(t.rows, row => Admits(f, t.cols, row))
  {
    var cols := t.cols;
    var byParent := ByMember(t, Reference.ParentCol, f.parents);
    var byState := ByMember(byParent, Cleansing.StateCol, f.states);
    var byCounty := ByMember(byState, CountyCol, f.counties);
    var byPlanType := ByMember(byCounty, Reference.PlanTypeCol, f.planTypes);
    ByMemberKeeps(t, cols, Reference.ParentCol, f.parents);
    ByMemberKeeps(byParent, cols, Cleansing.StateCol, f.states);
    ByMemberKeeps(byState, cols, CountyCol, f.counties);
    ByMemberKeeps(byCounty, cols, Reference.PlanTypeCol, f.planTypes);
    ByPeriodKeeps(byPlanType, cols, f);
    KeepFive(t.rows, byParent.rows, byState.rows, byCounty.rows, byPlanType.rows, ApplyFilters(t, f).rows,
             row => Matches(f.parents, cols, Reference.ParentCol, row),
             row => Matches(f.states, cols, Cleansing.StateCol, row),
             row => Matches(f.counties, cols, CountyCol, row),
             row => Matches(f.planTypes, cols, Reference.PlanTypeCol, row),
             row => InPeriod(f, cols, row),
             row => Admits(f, cols, row));
  }

  /** Every row that remains passes every active filter. */
  lemma ApplyFiltersSound(t: Table, f: Selection, row: seq<Cell>)
    requires WellFormed(t) && Applicable(t, f) && row in ApplyFilters(t, f).rows
    ensures row in t.rows && Admits(f, t.cols, row)
  {
    ApplyFiltersKeeps(t, f);
  }

  /** No row that passes every active filter is lost. */
  lemma ApplyFiltersComplete(t: Table, f: Selection, row: seq<Cell>)
    requires WellFormed(t) && Applicable(t, f) && row in t.rows && Admits(f, t.cols, row)
    ensures row in ApplyFilters(t, f).rows
  {
    ApplyFiltersKeeps(t, f);
    KeepComplete(t.rows, row => Admits(f, t.cols, row), row);
  }

  /** The remaining rows keep their relative order. */
  lemma ApplyFiltersOrder(t: Table, f: Selection)
    requires WellFormed(t) && Applicable(t, f)
    ensures IsSubsequence(ApplyFilters(t, f).rows, t.rows)
  {
    ApplyFiltersKeeps(t, f);
    KeepIsSubsequence(t.rows, row => Admits(f, t.cols, row));
  }

  /** Filtering an already filtered table again changes nothing. */
  lemma ApplyFiltersIdempotent(t: Table, f: Selection)
    requires WellFormed(t) && Applicable(t, f)
    ensures Applicable(ApplyFilters(t, f), f)
    ensures ApplyFilters(ApplyFilters(t, f), f) == ApplyFilters(t, f)
  {
    var r := ApplyFilters(t, f);
    ApplyFiltersKeeps(t, f);
    ApplyFiltersKeeps(r, f);
    KeepTwice(t.rows, row => Admits(f, t.cols, row));
  }

  /** With nothing selected, the table comes back unchanged. */
  lemma NoSelection(t: Table)
    requires WellFormed(t)
    ensures ApplyFilters(t, Selection([], [], [], [], None, None)) == t
  {
  }
}
