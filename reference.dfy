/** The plan directory (contract to parent organisation) and the join that gives every enrollment
    row its `Parent_Org`. */
module Reference {
  import opened Outcomes
  import opened Strings
  import opened Tables
  import opened Columns
  import opened Aliases
  import Cleansing
  import Window

  const ContractCol: string := "Contract_ID"
  const OrgCol: string := "Org_Name"
  const ParentCol: string := "Parent_Org"
  const PlanTypeCol: string := "Plan_Type"

  /** The four columns of a normalised plan directory, in order. */
  const PlandirCols: seq<string> := [ContractCol, OrgCol, ParentCol, PlanTypeCol]

  /** What a left-joined row without a directory entry gets. */
  const Unmatched: string := "Independent / Other"

  /** What every row gets when there is no directory and no organisation name. */
  const NoOrgName: string := "Independent/Other"

  // ---------------------------------------------------------------------------
  // `normalise_plandir`
  // ---------------------------------------------------------------------------

  /** The directory's labels after `_normalise_cols` with the plan-directory aliases. */
  function PlandirNamed(raw: Table): (r: Table)
    requires WellFormed(raw)
    ensures WellFormed(r) && r.rows == raw.rows
  {
    Table(NormaliseCols(raw.cols, PlandirAliases), raw.rows)
  }

  /** Each of the four directory names labels at most one column. */
  predicate AtMostOnce(named: Table) {
    forall x | x in PlandirCols :: Count(named.cols, x) <= 1
  }

  /** None of the four directory names ends in `_<digits>`. */
  lemma PlandirColsUntagged()
    ensures forall x | x in PlandirCols :: !HasTag(x, FinalSeparator)
  {
    NoTagWhenLastNotDigit(ContractCol, FinalSeparator);
    NoTagWhenLastNotDigit(OrgCol, FinalSeparator);
    NoTagWhenLastNotDigit(ParentCol, FinalSeparator);
    NoTagWhenLastNotDigit(PlanTypeCol, FinalSeparator);
  }

  /** Whatever the file's header, renaming leaves each of the four names on at most one column. */
  lemma PlandirNamedOnce(raw: Table)
    requires WellFormed(raw)
    ensures AtMostOnce(PlandirNamed(raw))
  {
    PlandirColsUntagged();
    forall x | x in PlandirCols ensures Count(PlandirNamed(raw).cols, x) <= 1 {
      NormalisedUntaggedOnce(raw.cols, PlandirAliases, x);
    }
  }

  /** After the guarantee loop each of the four names labels exactly one column. */
  lemma FilledCounts(named: Table)
    requires WellFormed(named) && AtMostOnce(named)
    ensures var f := Cleansing.FillMissing(named, PlandirCols);
            forall x | x in PlandirCols :: Count(f.cols, x) == 1 && x in f.cols
  {
    var f := Cleansing.FillMissing(named, PlandirCols);
    forall x | x in PlandirCols ensures Count(f.cols, x) == 1 && x in f.cols {
      Cleansing.FillMissingCounts(named, PlandirCols, x);
      assert x in multiset(f.cols);
    }
  }

  /** The renamed directory after `if col not in df.columns: df[col] = ""` for the four names. */
  function Filled(named: Table): (r: Table)
    requires WellFormed(named) && AtMostOnce(named)
    ensures WellFormed(r) && |r.rows| == |named.rows|
    ensures forall x | x in PlandirCols :: Count(r.cols, x) == 1 && x in r.cols
  {
    FilledCounts(named);
    Cleansing.FillMissing(named, PlandirCols)
  }

  /** `replace("", nan).fillna(org)` on one cell: an empty parent takes the organisation name. */
  function ParentOrOrg(parent: Cell, org: Cell): Cell {
    if parent == Str("") then org else parent
  }

  /** The repaired `Parent_Org` column, from the cells at positions `p` (parent) and `o` (organisation). */
  function ParentColumn(t: Table, p: nat, o: nat): (r: seq<Cell>)
    requires WellFormed(t) && p < |t.cols| && o < |t.cols|
    ensures |r| == |t.rows|
    ensures forall i :: 0 <= i < |t.rows| ==> r[i] == ParentOrOrg(t.rows[i][p], t.rows[i][o])
  {
    seq(|t.rows|, i requires 0 <= i < |t.rows| =>
      assert t.rows[i] in t.rows; ParentOrOrg(t.rows[i][p], t.rows[i][o]))
  }

  /** The filled directory after the `Parent_Org` repair. */
  function Repaired(named: Table): (r: Table)
    requires WellFormed(named) && AtMostOnce(named)
    ensures WellFormed(r) && |r.rows| == |named.rows| && r.cols == Filled(named).cols
  {
    var f := Filled(named);
    SetColumn(f, ParentCol, ParentColumn(f, IndexOf(f.cols, ParentCol), IndexOf(f.cols, OrgCol)))
  }

  /** `df[["Contract_ID", "Org_Name", "Parent_Org", "Plan_Type"]]`, before duplicates are dropped. */
  function Chosen(named: Table): (r: Table)
    requires WellFormed(named) && AtMostOnce(named)
    ensures WellFormed(r) && |r.rows| == |named.rows| && r.cols == PlandirCols
  {
    var fixed := Repaired(named);
    SelectUnique(fixed, PlandirCols);
    Select(fixed, PlandirCols)
  }

  /** `normalise_plandir`: the four columns, one row per contract (the first one seen). */
  function NormalisePlandir(raw: Table): (r: Table)
    requires WellFormed(raw)
    ensures WellFormed(r) && r.cols == PlandirCols && |r.rows| <= |raw.rows|
  {
    var named := PlandirNamed(raw);
    PlandirNamedOnce(raw);
    var chosen := Chosen(named);
    WellFormedKeyed(chosen, 0);
    Table(chosen.cols, DropDuplicateKeys(chosen.rows, 0))
  }

  /** The cell a renamed directory row holds under `name`, blank when no column has that name. */
  function NamedCell(named: Table, i: nat, name: string): Cell
    requires WellFormed(named) && i < |named.rows|
  {
    if name in named.cols then
      assert named.rows[i] in named.rows; named.rows[i][IndexOf(named.cols, name)]
    else Str("")
  }

  /** Where `name` is found after filling, the filled row holds what the renamed row held. */
  lemma FilledCell(named: Table, i: nat, name: string)
    requires WellFormed(named) && AtMostOnce(named) && i < |named.rows| && name in PlandirCols
    ensures var f := Filled(named);
            f.rows[i][IndexOf(f.cols, name)] == NamedCell(named, i, name)
  {
    Cleansing.FillMissingCell(named, PlandirCols, name, i);
  }

  /** A cell of the chosen four columns is the renamed row's cell under that name, except that an
      empty parent is replaced by the organisation name. */
  lemma ChosenCell(named: Table, i: nat, k: nat)
    requires WellFormed(named) && AtMostOnce(named) && i < |named.rows| && k < 4
    ensures |Chosen(named).rows[i]| == 4
    ensures Chosen(named).rows[i][k] ==
              if k == 2 then ParentOrOrg(NamedCell(named, i, ParentCol), NamedCell(named, i, OrgCol))
              else NamedCell(named, i, PlandirCols[k])
  {
    var f := Filled(named);
    var p, o := IndexOf(f.cols, ParentCol), IndexOf(f.cols, OrgCol);
    var values := ParentColumn(f, p, o);
    assert Chosen(named) == Select(SetColumn(f, ParentCol, values), PlandirCols);
    SelectAfterSet(f, PlandirCols, ParentCol, values, i, k);
    if k == 2 {
      FilledCell(named, i, ParentCol);
      FilledCell(named, i, OrgCol);
    } else {
      FilledCell(named, i, PlandirCols[k]);
    }
  }

  /** Each directory row before de-duplication holds the renamed row's contract, organisation and
      plan type (blank where the file lacks the column), and its parent unless that is empty, in
      which case the organisation name. */
  lemma ChosenRow(named: Table, i: nat)
    requires WellFormed(named) && AtMostOnce(named) && i < |named.rows|
    ensures Chosen(named).rows[i] ==
              [NamedCell(named, i, ContractCol), NamedCell(named, i, OrgCol),
               ParentOrOrg(NamedCell(named, i, ParentCol), NamedCell(named, i, OrgCol)),
               NamedCell(named, i, PlanTypeCol)]
  {
    ChosenCell(named, i, 0);
    ChosenCell(named, i, 1);
    ChosenCell(named, i, 2);
    ChosenCell(named, i, 3);
    FourCells(Chosen(named).rows[i]);
  }

  /** A row of four cells is the display of its cells. */
  lemma FourCells(row: seq<Cell>)
    requires |row| == 4
    ensures row == [row[0], row[1], row[2], row[3]]
  {
  }

  /** The directory has one row per contract: no contract appears twice, every contract of the file
      appears, and each row is the first row of the file for its contract. */
  lemma NormalisePlandirKeys(raw: Table, c: Cell)
    requires WellFormed(raw)
    ensures AtMostOnce(PlandirNamed(raw))
    ensures var chosen := Chosen(PlandirNamed(raw)).rows;
            var r := NormalisePlandir(raw).rows;
            && UniqueKeys(r, 0)
            && (FirstWithKey(r, 0, c) < |r| <==> FirstWithKey(chosen, 0, c) < |chosen|)
            && FirstOfKeys(r, chosen, 0)
  {
    PlandirNamedOnce(raw);
    var chosen := Chosen(PlandirNamed(raw));
    WellFormedKeyed(chosen, 0);
    DropDuplicateKeysUnique(chosen.rows, 0);
    DropDuplicateKeysKeys(chosen.rows, 0, c);
    DropDuplicateKeysFirst(chosen.rows, 0);
  }

  /** Row `j` of the directory comes from the first file row `i` with its contract: it holds that
      row's contract, organisation and plan type under their renamed labels (blank where the file
      has no such column), and its parent, or its organisation name when the parent is empty. */
  lemma NormalisePlandirRow(raw: Table, j: nat)
    requires WellFormed(raw) && j < |NormalisePlandir(raw).rows|
    ensures AtMostOnce(PlandirNamed(raw))
    ensures var named := PlandirNamed(raw);
            var row := NormalisePlandir(raw).rows[j];
            var i := FirstWithKey(Chosen(named).rows, 0, row[0]);
            && i < |raw.rows|
            && row == [NamedCell(named, i, ContractCol), NamedCell(named, i, OrgCol),
                       ParentOrOrg(NamedCell(named, i, ParentCol), NamedCell(named, i, OrgCol)),
                       NamedCell(named, i, PlanTypeCol)]
  {
    NormalisePlandirKeys(raw, Str(""));
    var named := PlandirNamed(raw);
    var row := NormalisePlandir(raw).rows[j];
    ChosenRow(named, FirstWithKey(Chosen(named).rows, 0, row[0]));
  }

  /** An empty `Parent_Org` falls back to `Org_Name`: a directory row has an empty parent only when
      its organisation name is empty too. */
  lemma PlandirParentFilled(raw: Table, j: nat)
    requires WellFormed(raw) && j < |NormalisePlandir(raw).rows|
    ensures var row := NormalisePlandir(raw).rows[j];
            row[2] == Str("") ==> row[1] == Str("")
  {
    NormalisePlandirRow(raw, j);
  }

  /** A directory without a parent column gets each row's organisation name as its parent. */
  lemma PlandirParentFromOrg(raw: Table, j: nat)
    requires WellFormed(raw) && j < |NormalisePlandir(raw).rows|
    requires ParentCol !in NormaliseCols(raw.cols, PlandirAliases)
    ensures var row := NormalisePlandir(raw).rows[j];
            row[2] == row[1]
  {
    NormalisePlandirRow(raw, j);
  }

  // ---------------------------------------------------------------------------
  // `add_parent_org`
  // ---------------------------------------------------------------------------

  /** The fallback path: the directory is empty or has no `Contract_ID` column. */
  predicate Unkeyed(plandir: Table) {
    IsEmpty(plandir) || ContractCol !in plandir.cols
  }

  /** What the merge path needs to run: the enrollment frame has one contract column and no parent
      column yet, and the directory has one contract column and one parent column. */
  predicate Joinable(t: Table, plandir: Table) {
    && Count(t.cols, ContractCol) == 1 && ParentCol !in t.cols
    && Count(plandir.cols, ContractCol) == 1 && Count(plandir.cols, ParentCol) == 1
  }

  /** `enroll["Parent_Org"] = enroll.get("Org_Name", "Independent/Other")`; a repeated `Org_Name`
      yields a frame with several columns, which cannot be assigned to one label. */
  function CopyOrgName(t: Table): (r: Result<Table>)
    requires WellFormed(t)
  {
    if OrgCol !in t.cols then Ok(SetConst(t, ParentCol, Str(NoOrgName)))
    else if Count(t.cols, OrgCol) != 1 then Err(DuplicateColumn(OrgCol))
    else Ok(SetColumn(t, ParentCol, Column(t, IndexOf(t.cols, OrgCol))))
  }

  /** `plandir[["Contract_ID", "Parent_Org"]].drop_duplicates("Contract_ID")`, as rows of two cells. */
  function ParentLookup(plandir: Table): (r: seq<seq<Cell>>)
    requires WellFormed(plandir)
    requires Count(plandir.cols, ContractCol) == 1 && Count(plandir.cols, ParentCol) == 1
    ensures forall i :: 0 <= i < |r| ==> |r[i]| == 2
  {
    var sel := Select(plandir, [ContractCol, ParentCol]);
    SelectUnique(plandir, [ContractCol, ParentCol]);
    WellFormedKeyed(sel, 0);
    DropDuplicateKeys(sel.rows, 0)
  }

  /** The parent a left-joined row with contract `key` gets: that of the lookup row with the same
      contract, or the sentinel (`fillna`) when there is none. */
  function ParentFor(lookup: seq<seq<Cell>>, key: Cell): Cell
    requires forall i :: 0 <= i < |lookup| ==> |lookup[i]| == 2
  {
    var j := FirstWithKey(lookup, 0, key);
    if j < |lookup| then lookup[j][1] else Str(Unmatched)
  }

  /** `enroll.merge(lookup, on="Contract_ID", how="left")` with the sentinel filled in. The
      directory's keys are unique, so every enrollment row yields one row, in order, and the
      directory's only other column comes last. */
  function JoinParent(t: Table, plandir: Table): (r: Table)
    requires WellFormed(t) && WellFormed(plandir) && Joinable(t, plandir)
    ensures WellFormed(r) && |r.rows| == |t.rows| && r.cols == t.cols + [ParentCol]
  {
    var lookup := ParentLookup(plandir);
    var k := IndexOf(t.cols, ContractCol);
    SetColumn(t, ParentCol, seq(|t.rows|, i requires 0 <= i < |t.rows| =>
      assert t.rows[i] in t.rows; ParentFor(lookup, t.rows[i][k])))
  }

  /** `add_parent_org`. */
  function AddParentOrg(t: Table, plandir: Table): (r: Result<Table>)
    requires WellFormed(t) && WellFormed(plandir)
    requires !Unkeyed(plandir) ==> Joinable(t, plandir)
    ensures r.Ok? ==> WellFormed(r.value) && |r.value.rows| == |t.rows| && ParentCol in r.value.cols
    ensures r.Err? ==> r.failure == DuplicateColumn(OrgCol)
  {
    if Unkeyed(plandir) then CopyOrgName(t) else Ok(JoinParent(t, plandir))
  }

  /** Adding the parent never changes the number of enrollment rows and leaves every other column's
      cells alone; it fails only on the fallback path, when `Org_Name` is repeated. */
  lemma AddParentOrgKeepsRows(t: Table, plandir: Table)
    requires WellFormed(t) && WellFormed(plandir)
    requires !Unkeyed(plandir) ==> Joinable(t, plandir)
    ensures var r := AddParentOrg(t, plandir);
            && (r.Err? <==> Unkeyed(plandir) && OrgCol in t.cols && Count(t.cols, OrgCol) != 1)
            && (r.Ok? ==>
                  && |r.value.rows| == |t.rows| && ParentCol in r.value.cols
                  && r.value.cols[..|t.cols|] == t.cols
                  && forall i, j :: 0 <= i < |t.rows| && 0 <= j < |t.cols| && t.cols[j] != ParentCol ==>
                       r.value.rows[i][j] == t.rows[i][j])
  {
    if Unkeyed(plandir) {
      if OrgCol !in t.cols {
        SetParentKeeps(t, ConstColumn(|t.rows|, Str(NoOrgName)));
      } else if Count(t.cols, OrgCol) == 1 {
        SetParentKeeps(t, Column(t, IndexOf(t.cols, OrgCol)));
      }
    } else {
      var lookup := ParentLookup(plandir);
      var k := IndexOf(t.cols, ContractCol);
      SetParentKeeps(t, seq(|t.rows|, i requires 0 <= i < |t.rows| =>
        assert t.rows[i] in t.rows; ParentFor(lookup, t.rows[i][k])));
    }
  }

  /** Assigning `Parent_Org` keeps the row count and the existing labels in front, and leaves every
      other column's cells alone. */
  lemma SetParentKeeps(t: Table, values: seq<Cell>)
    requires WellFormed(t) && |values| == |t.rows|
    ensures var r := SetColumn(t, ParentCol, values);
            && |r.rows| == |t.rows| && ParentCol in r.cols && r.cols[..|t.cols|] == t.cols
            && forall i, j :: 0 <= i < |t.rows| && 0 <= j < |t.cols| && t.cols[j] != ParentCol ==>
                 r.rows[i][j] == t.rows[i][j]
  {
    var r := SetColumn(t, ParentCol, values);
    assert r.cols[..|t.cols|] == t.cols;
    forall i, j | 0 <= i < |t.rows| && 0 <= j < |t.cols| && t.cols[j] != ParentCol
      ensures r.rows[i][j] == t.rows[i][j]
    {
      assert r.cols[j] == t.cols[j];
    }
  }

  /** Looking a contract up in the de-duplicated two-column selection finds the parent of the first
      directory row with that contract, or the sentinel when there is none. */
  lemma ParentForFirst(plandir: Table, key: Cell)
    requires WellFormed(plandir)
    requires Count(plandir.cols, ContractCol) == 1 && Count(plandir.cols, ParentCol) == 1
    ensures ParentFor(ParentLookup(plandir), key) == DirectoryParent(plandir, key)
  {
    var c, p := IndexOf(plandir.cols, ContractCol), IndexOf(plandir.cols, ParentCol);
    var sel := Select(plandir, [ContractCol, ParentCol]);
    SelectUnique(plandir, [ContractCol, ParentCol]);
    SelectAt(plandir, [ContractCol, ParentCol], 0, c);
    SelectAt(plandir, [ContractCol, ParentCol], 1, p);
    WellFormedKeyed(plandir, c);
    WellFormedKeyed(plandir, p);
    PairLookup(sel.rows, plandir.rows, c, p, key);
  }

  /** The same, for any two-cell rows that copy positions `c` and `p` of `rows`. */
  lemma PairLookup(sel: seq<seq<Cell>>, rows: seq<seq<Cell>>, c: nat, p: nat, key: Cell)
    requires |sel| == |rows| && Keyed(rows, c) && Keyed(rows, p)
    requires forall m :: 0 <= m < |sel| ==> |sel[m]| == 2 && sel[m][0] == rows[m][c] && sel[m][1] == rows[m][p]
    ensures var m := FirstWithKey(rows, c, key);
            ParentFor(DropDuplicateKeys(sel, 0), key) == if m < |rows| then rows[m][p] else Str(Unmatched)
  {
    LookupFirst(sel, rows, c, key);
    DropDuplicateKeysLookup(sel, 0, key);
  }

  /** The merge path gives row `i` the parent of the first directory row with the same contract, or
      `"Independent / Other"` when the directory has no such row. */
  lemma JoinParentCell(t: Table, plandir: Table, i: nat)
    requires WellFormed(t) && WellFormed(plandir) && !Unkeyed(plandir) && Joinable(t, plandir)
    requires i < |t.rows|
    ensures AddParentOrg(t, plandir) == Ok(JoinParent(t, plandir))
    ensures |JoinParent(t, plandir).rows[i]| == |t.cols| + 1
    ensures JoinParent(t, plandir).rows[i][|t.cols|] == DirectoryParent(plandir, ContractOf(t, i))
  {
    var r := JoinParent(t, plandir);
    assert r.rows[i] in r.rows;
    ParentForFirst(plandir, ContractOf(t, i));
  }

  /** The contract of enrollment row `i`. */
  function ContractOf(t: Table, i: nat): Cell
    requires WellFormed(t) && Count(t.cols, ContractCol) == 1 && i < |t.rows|
  {
    assert t.rows[i] in t.rows;
    t.rows[i][IndexOf(t.cols, ContractCol)]
  }

  /** The parent of the first directory row whose contract is `key`, or `"Independent / Other"`
      when no row has it. */
  function DirectoryParent(plandir: Table, key: Cell): Cell
    requires WellFormed(plandir)
    requires Count(plandir.cols, ContractCol) == 1 && Count(plandir.cols, ParentCol) == 1
  {
    var c, p := IndexOf(plandir.cols, ContractCol), IndexOf(plandir.cols, ParentCol);
    var m := FirstWithKey(plandir.rows, c, key);
    if m < |plandir.rows| then
      assert plandir.rows[m] in plandir.rows; plandir.rows[m][p]
    else Str(Unmatched)
  }

  /** Scanning the two-column selection for a contract stops where scanning the directory does. */
  lemma LookupFirst(sel: seq<seq<Cell>>, rows: seq<seq<Cell>>, c: nat, key: Cell)
    requires |sel| == |rows|
    requires forall m :: 0 <= m < |sel| ==> c < |rows[m]| && 0 < |sel[m]| && sel[m][0] == rows[m][c]
    ensures FirstWithKey(sel, 0, key) == FirstWithKey(rows, c, key)
  {
    FirstIndexAlike(sel, HasKey(0, key), rows, HasKey(c, key));
  }

  /** The fallback path copies `Org_Name` into `Parent_Org` row by row, or, without an `Org_Name`
      column, sets every parent to `"Independent/Other"`. */
  lemma FallbackParent(t: Table, plandir: Table, i: nat, j: nat)
    requires WellFormed(t) && WellFormed(plandir) && Unkeyed(plandir)
    requires OrgCol !in t.cols || Count(t.cols, OrgCol) == 1
    requires i < |t.rows|
    ensures var r := AddParentOrg(t, plandir);
            && r.Ok?
            && (j < |r.value.cols| && r.value.cols[j] == ParentCol ==>
                  r.value.rows[i][j] == if OrgCol in t.cols then t.rows[i][IndexOf(t.cols, OrgCol)] else Str(NoOrgName))
  {
  }

  /** The canonical enrollment columns have one contract column and no parent column. */
  lemma CanonicalColsJoinable()
    ensures Count(Cleansing.CpscOutputCols, ContractCol) == 1 && ParentCol !in Cleansing.CpscOutputCols
  {
    Cleansing.OutputColsLackParent();
    Cleansing.OutputColsContractOnce();
  }

  /** The directory's four columns are distinct. */
  lemma PlandirColsDistinct()
    ensures Count(PlandirCols, ContractCol) == 1 && Count(PlandirCols, ParentCol) == 1
  {
    assert NoDuplicates(PlandirCols);
    DistinctCountOne(PlandirCols, 0);
    DistinctCountOne(PlandirCols, 2);
  }

  /** A directory from `normalise_plandir` and an enrollment frame with the canonical columns meet
      what the merge needs; such a directory takes the fallback path exactly when it has no rows. */
  lemma CanonicalJoinable(t: Table, raw: Table)
    requires WellFormed(raw) && t.cols == Cleansing.CpscOutputCols
    ensures Joinable(t, NormalisePlandir(raw))
    ensures Unkeyed(NormalisePlandir(raw)) <==> |NormalisePlandir(raw).rows| == 0
  {
    CanonicalColsJoinable();
    PlandirColsDistinct();
  }

  /** `main` merges only a loaded enrollment frame that is not empty (app.py:964-969); such a frame
      and a normalised directory meet what the merge needs. */
  lemma LoadedJoinable(xs: seq<Window.MonthInput>, raw: Table)
    requires Window.AllReadable(xs) && WellFormed(raw)
    requires |Window.LoadEnrollment(xs).table.rows| > 0
    ensures Joinable(Window.LoadEnrollment(xs).table, NormalisePlandir(raw))
  {
    Window.LoadEnrollmentEmpty(xs);
    Window.LoadEnrollmentRows(xs);
    CanonicalJoinable(Window.LoadEnrollment(xs).table, raw);
  }

  // ---------------------------------------------------------------------------
  // The caller's frame
  // ---------------------------------------------------------------------------

  /** `add_parent_org(enroll, plandir)`: the fallback path assigns into the caller's frame and returns
      it; the merge path leaves the caller's frame alone and returns a new one. */
  method AddParentOrgTo(enroll: Frame, plandir: Table) returns (r: Result<Table>)
    requires WellFormed(enroll.Contents()) && WellFormed(plandir)
    requires !Unkeyed(plandir) ==> Joinable(enroll.Contents(), plandir)
    modifies enroll
    ensures r == AddParentOrg(old(enroll.Contents()), plandir)
    ensures enroll.Contents() == if Unkeyed(plandir) && r.Ok? then r.value else old(enroll.Contents())
  {
    if Unkeyed(plandir) {
      if OrgCol !in enroll.cols {
        enroll.Assign(ParentCol, ConstColumn(|enroll.rows|, Str(NoOrgName)));
        r := Ok(enroll.Contents());
      } else if Count(enroll.cols, OrgCol) != 1 {
        r := Err(DuplicateColumn(OrgCol));
      } else {
        var org := Column(enroll.Contents(), IndexOf(enroll.cols, OrgCol));
        enroll.Assign(ParentCol, org);
        r := Ok(enroll.Contents());
      }
    } else {
      r := Ok(JoinParent(enroll.Contents(), plandir));
    }
  }
}
