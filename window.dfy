/** `load_enrollment`: each requested month is loaded (local file first, live download second),
    normalised, kept only when that succeeds, aligned to the canonical columns and concatenated.
    The files and downloads are inputs, one `MonthInput` per requested month. */
module Window {
  import opened Outcomes
  import opened Tables
  import opened Calendar
  import opened Sources
  import opened Cleansing

  /** What the outside world supplies for one requested month: whether a pre-fetched file exists,
      what reading it produced, and what the live download produced. */
  datatype MonthInput = MonthInput(year: int, month: Month, hasLocal: bool, localRead: Option<Table>, live: Option<Table>)

  /** Every frame the readers return is rectangular. */
  predicate Readable(x: MonthInput) {
    && (x.localRead.Some? ==> WellFormed(x.localRead.value))
    && (x.live.Some? ==> WellFormed(x.live.value))
  }

  predicate AllReadable(xs: seq<MonthInput>) {
    forall i | 0 <= i < |xs| :: Readable(xs[i])
  }

  /** All frames are rectangular. */
  predicate AllWellFormed(fs: seq<Table>) {
    forall i | 0 <= i < |fs| :: WellFormed(fs[i])
  }

  /** `_load_one_cpsc(yr, mo)` for that month. */
  function Raw(x: MonthInput): (r: Option<Table>)
    requires Readable(x)
    ensures r.Some? ==> WellFormed(r.value)
  {
    LoadOne(x.hasLocal, x.localRead, x.live)
  }

  /** The frame a month contributes: a raw frame of more than ten rows that normalises without
      raising and without repeated labels; otherwise the month is skipped. */
  function Accept(x: MonthInput): (r: Option<Table>)
    requires Readable(x)
    ensures r.Some? ==> WellFormed(r.value) && NoDuplicates(r.value.cols)
  {
    var raw := Raw(x);
    if raw.Some? && |raw.value.rows| > 10 then
      match NormaliseCpsc(raw.value, x.year, x.month)
      case Err(_) => None
      case Ok(normed) => if NoDuplicates(normed.cols) then Some(normed) else None
    else None
  }

  /** What one turn of the first loop records: whether a local file exists, and the frame the
      month contributes, if any. */
  datatype Outcome = Outcome(hasLocal: bool, frame: Option<Table>)

  /** A contributed frame is rectangular and its labels do not repeat. */
  predicate Sound(o: Outcome) {
    o.frame.Some? ==> WellFormed(o.frame.value) && NoDuplicates(o.frame.value.cols)
  }

  function OutcomeOf(x: MonthInput): (o: Outcome)
    requires Readable(x)
    ensures Sound(o)
  {
    Outcome(x.hasLocal, Accept(x))
  }

  /** The accepted frames, in month order, and the two source counters. */
  datatype Collected = Collected(frames: seq<Table>, localCount: nat, liveCount: nat)

  /** One turn of the first loop's bookkeeping. A month counts as local whenever a local file
      exists, whichever source its frame came from. */
  function Step(c: Collected, o: Outcome): (r: Collected)
    ensures |r.frames| - |c.frames| == (r.localCount - c.localCount) + (r.liveCount - c.liveCount)
  {
    match o.frame
    case None => c
    case Some(f) =>
      if o.hasLocal then Collected(c.frames + [f], c.localCount + 1, c.liveCount)
      else Collected(c.frames + [f], c.localCount, c.liveCount + 1)
  }

  /** The bookkeeping of the first loop of `load_enrollment` over the months' outcomes. */
  function Tally(os: seq<Outcome>): (c: Collected)
    ensures |c.frames| == c.localCount + c.liveCount
    ensures (forall i | 0 <= i < |os| :: Sound(os[i])) ==> AllWellFormed(c.frames)
    decreases |os|
  {
    if os == [] then Collected([], 0, 0) else Step(Tally(os[..|os| - 1]), os[|os| - 1])
  }

  lemma TallySnoc(os: seq<Outcome>, o: Outcome)
    ensures Tally(os + [o]) == Step(Tally(os), o)
  {
    assert (os + [o])[..|os|] == os;
  }

  /** Each month's outcome, in request order. */
  function MonthOutcomes(xs: seq<MonthInput>): (os: seq<Outcome>)
    requires AllReadable(xs)
    ensures |os| == |xs| && forall i | 0 <= i < |os| :: Sound(os[i])
    decreases |xs|
  {
    if xs == [] then []
    else
      var init := xs[..|xs| - 1];
      assert forall i | 0 <= i < |init| :: init[i] == xs[i];
      MonthOutcomes(init) + [OutcomeOf(xs[|xs| - 1])]
  }

  /** The first loop of `load_enrollment` over the requested months. */
  function Collect(xs: seq<MonthInput>): (c: Collected)
    requires AllReadable(xs)
    ensures AllWellFormed(c.frames)
  {
    Tally(MonthOutcomes(xs))
  }

  /** One more month extends the bookkeeping by that month's outcome. */
  lemma CollectSnoc(xs: seq<MonthInput>, i: nat)
    requires AllReadable(xs) && i < |xs|
    ensures AllReadable(xs[..i]) && AllReadable(xs[..i + 1])
    ensures Collect(xs[..i + 1]) == Step(Collect(xs[..i]), OutcomeOf(xs[i]))
  {
    var ys := xs[..i + 1];
    assert ys[..i] == xs[..i] && ys[i] == xs[i];
    TallySnoc(MonthOutcomes(xs[..i]), OutcomeOf(xs[i]));
  }

  // ---------------------------------------------------------------------------
  // Alignment
  // ---------------------------------------------------------------------------

  /** The value a missing column is filled with: `0` for Enrollment, `""` otherwise. */
  function AlignDefault(name: string): Cell {
    if name == EnrollmentCol then Int(0) else Str("")
  }

  /** One turn of the alignment loop. */
  function AlignOne(t: Table, name: string): (r: Table)
    requires WellFormed(t)
    ensures WellFormed(r) && |r.rows| == |t.rows|
  {
    if name in t.cols then t else SetConst(t, name, AlignDefault(name))
  }

  /** The alignment loop over `names`. */
  function AlignFill(t: Table, names: seq<string>): (r: Table)
    requires WellFormed(t)
    ensures WellFormed(r) && |r.rows| == |t.rows|
    decreases |names|
  {
    if names == [] then t else AlignFill(AlignOne(t, names[0]), names[1..])
  }

  /** `f[all_cols]` after the missing columns of `all_cols` are added. */
  function Align(f: Table, allCols: seq<string>): (r: Table)
    requires WellFormed(f)
    ensures WellFormed(r) && |r.rows| == |f.rows|
  {
    Select(AlignFill(f, allCols), allCols)
  }

  /** The second loop of `load_enrollment`: every frame aligned, in order. */
  function AlignAll(fs: seq<Table>, allCols: seq<string>): (r: seq<Table>)
    requires AllWellFormed(fs)
    ensures |r| == |fs|
    decreases |fs|
  {
    if fs == [] then [] else AlignAll(fs[..|fs| - 1], allCols) + [Align(fs[|fs| - 1], allCols)]
  }

  lemma AlignAllSnoc(fs: seq<Table>, allCols: seq<string>, k: nat)
    requires AllWellFormed(fs) && k < |fs|
    ensures AllWellFormed(fs[..k]) && AllWellFormed(fs[..k + 1])
    ensures AlignAll(fs[..k + 1], allCols) == AlignAll(fs[..k], allCols) + [Align(fs[k], allCols)]
  {
    assert fs[..k + 1][..k] == fs[..k];
  }

  /** The alignment loop never makes a label repeat, never removes one, and leaves every listed
      label present. */
  lemma {:induction false} AlignFillCounts(t: Table, names: seq<string>, x: string)
    requires WellFormed(t)
    ensures Count(t.cols, x) <= 1 ==> Count(AlignFill(t, names).cols, x) <= 1
    ensures Count(t.cols, x) >= 1 || x in names ==> Count(AlignFill(t, names).cols, x) >= 1
    decreases |names|
  {
    if names != [] {
      var u := AlignOne(t, names[0]);
      if names[0] !in t.cols {
        SetColumnKeepsCounts(t, names[0], ConstColumn(|t.rows|, AlignDefault(names[0])), x);
      } else if x == names[0] {
        assert x in multiset(t.cols);
      }
      AlignFillCounts(u, names[1..], x);
    }
  }

  /** The alignment loop only appends: existing labels and cells stay where they were. */
  lemma {:induction false} AlignFillPrefix(t: Table, names: seq<string>)
    requires WellFormed(t)
    ensures var r := AlignFill(t, names);
            && |t.cols| <= |r.cols| && r.cols[..|t.cols|] == t.cols
            && forall i :: 0 <= i < |t.rows| ==> r.rows[i][..|t.cols|] == t.rows[i]
    decreases |names|
  {
    if names != [] {
      var u := AlignOne(t, names[0]);
      AlignOnePrefix(t, names[0]);
      AlignFillPrefix(u, names[1..]);
      var r := AlignFill(t, names);
      assert r == AlignFill(u, names[1..]);
      PrefixOfPrefix(r.cols, u.cols, t.cols);
      forall i | 0 <= i < |t.rows| ensures r.rows[i][..|t.cols|] == t.rows[i] {
        assert r.rows[i] in r.rows && u.rows[i] in u.rows && t.rows[i] in t.rows;
        PrefixOfPrefix(r.rows[i], u.rows[i], t.rows[i]);
      }
    }
  }

  /** One turn of the alignment loop only appends. */
  lemma AlignOnePrefix(t: Table, name: string)
    requires WellFormed(t)
    ensures var u := AlignOne(t, name);
            && |t.cols| <= |u.cols| && u.cols[..|t.cols|] == t.cols
            && forall i :: 0 <= i < |t.rows| ==> u.rows[i][..|t.cols|] == t.rows[i]
  {
    if name !in t.cols {
      SetColumnAppends(t, name, ConstColumn(|t.rows|, AlignDefault(name)));
    }
  }

  /** A listed label that was missing ends up holding its default in every row. */
  lemma {:induction false} AlignFillDefault(t: Table, names: seq<string>, x: string)
    requires WellFormed(t) && x in names && x !in t.cols
    ensures ColumnHolds(AlignFill(t, names), x, Equals(AlignDefault(x)))
    decreases |names|
  {
    var u := AlignOne(t, names[0]);
    if names[0] == x {
      SetColumnHolds(t, x, ConstColumn(|t.rows|, AlignDefault(x)), Equals(AlignDefault(x)));
      AlignFillKeepsOther(u, names[1..], x, Equals(AlignDefault(x)));
    } else {
      AlignFillDefault(u, names[1..], x);
    }
  }

  /** The alignment loop leaves alone a column that exists or is not listed. */
  lemma {:induction false} AlignFillKeepsOther(t: Table, names: seq<string>, other: string, p: Cell -> bool)
    requires WellFormed(t) && (other in t.cols || other !in names) && ColumnHolds(t, other, p)
    ensures ColumnHolds(AlignFill(t, names), other, p)
    decreases |names|
  {
    if names != [] {
      var u := AlignOne(t, names[0]);
      if names[0] !in t.cols {
        SetColumnKeepsOther(t, names[0], ConstColumn(|t.rows|, AlignDefault(names[0])), other, p);
      }
      AlignFillKeepsOther(u, names[1..], other, p);
    }
  }

  /** An aligned frame whose labels did not repeat has exactly the requested labels, in order. */
  lemma AlignColumns(f: Table, allCols: seq<string>)
    requires WellFormed(f) && NoDuplicates(f.cols) && NoDuplicates(allCols)
    ensures Align(f, allCols).cols == allCols
    ensures NoDuplicates(AlignFill(f, allCols).cols)
    ensures forall l | l in allCols :: Count(AlignFill(f, allCols).cols, l) == 1
  {
    var u := AlignFill(f, allCols);
    forall l | l in u.cols ensures Count(u.cols, l) == 1 {
      NoDuplicatesCount(f.cols, l);
      AlignFillCounts(f, allCols, l);
      assert l in multiset(u.cols);
    }
    forall l | l in allCols ensures Count(u.cols, l) == 1 {
      NoDuplicatesCount(f.cols, l);
      AlignFillCounts(f, allCols, l);
    }
    CountOneNoDuplicates(u.cols);
    SelectUnique(u, allCols);
  }

  /** A requested label the frame lacks is filled with its default: `0` for Enrollment, `""`
      otherwise. */
  lemma AlignFillsMissing(f: Table, allCols: seq<string>, k: nat)
    requires WellFormed(f) && NoDuplicates(f.cols) && NoDuplicates(allCols)
    requires k < |allCols| && allCols[k] !in f.cols
    ensures var r := Align(f, allCols);
            forall i :: 0 <= i < |r.rows| ==> |r.rows[i]| == |allCols| && r.rows[i][k] == AlignDefault(allCols[k])
  {
    AlignColumns(f, allCols);
    AlignFillDefault(f, allCols, allCols[k]);
    SelectHolds(AlignFill(f, allCols), allCols, k, Equals(AlignDefault(allCols[k])));
  }

  /** A requested label the frame has keeps its cells. */
  lemma AlignKeepsPresent(f: Table, allCols: seq<string>, k: nat, j: nat)
    requires WellFormed(f) && NoDuplicates(f.cols) && NoDuplicates(allCols)
    requires k < |allCols| && j < |f.cols| && f.cols[j] == allCols[k]
    ensures var r := Align(f, allCols);
            forall i :: 0 <= i < |r.rows| ==> |r.rows[i]| == |allCols| && r.rows[i][k] == f.rows[i][j]
  {
    AlignColumns(f, allCols);
    AlignFillPrefix(f, allCols);
    var u := AlignFill(f, allCols);
    SelectAt(u, allCols, k, j);
    forall i | 0 <= i < |f.rows| ensures u.rows[i][j] == f.rows[i][j] {
      assert u.rows[i][..|f.cols|][j] == u.rows[i][j];
    }
  }

  /** Aligning a frame that already has exactly the requested labels changes nothing. */
  lemma AlignNoop(f: Table, allCols: seq<string>)
    requires WellFormed(f) && f.cols == allCols && NoDuplicates(allCols)
    ensures Align(f, allCols) == f
  {
    AlignFillPresent(f, allCols);
    SelectOwnColumns(f);
  }

  lemma {:induction false} AlignFillPresent(t: Table, names: seq<string>)
    requires WellFormed(t) && forall n | n in names :: n in t.cols
    ensures AlignFill(t, names) == t
    decreases |names|
  {
    if names != [] {
      assert names[0] in names;
      AlignFillPresent(t, names[1..]);
    }
  }

  /** The rows of several frames, one after the other (`pd.concat(..., ignore_index=True)`). */
  function RowsOf(ts: seq<Table>): seq<seq<Cell>>
    decreases |ts|
  {
    if ts == [] then [] else RowsOf(ts[..|ts| - 1]) + ts[|ts| - 1].rows
  }

  /** The number of rows of several frames together. */
  function TotalRows(ts: seq<Table>): nat
    decreases |ts|
  {
    if ts == [] then 0 else TotalRows(ts[..|ts| - 1]) + |ts[|ts| - 1].rows|
  }

  /** The result of `load_enrollment`: the concatenated frame and its two attributes. */
  datatype Loaded = Loaded(table: Table, localCount: nat, liveCount: nat)

  /** After the first loop: no frame gives the empty frame; otherwise the aligned frames are
      concatenated under the canonical header. The counters are carried along as attributes. */
  function Assemble(c: Collected): (r: Loaded)
    requires AllWellFormed(c.frames)
  {
    if c.frames == [] then Loaded(Table([], []), c.localCount, c.liveCount)
    else Loaded(Table(CpscOutputCols, RowsOf(AlignAll(c.frames, CpscOutputCols))), c.localCount, c.liveCount)
  }

  /** `load_enrollment` over the requested months: the loaded table is rectangular. */
  function LoadEnrollment(xs: seq<MonthInput>): (r: Loaded)
    requires AllReadable(xs)
    ensures WellFormed(r.table)
  {
    CollectedSound(xs);
    Assemble(Collect(xs))
  }

  /** What the first loop collects assembles into a rectangular table. */
  lemma CollectedSound(xs: seq<MonthInput>)
    requires AllReadable(xs)
    ensures WellFormed(Assemble(Collect(xs)).table)
  {
    CollectCanonical(xs);
    AssembleWellFormed(Collect(xs));
  }

  // ---------------------------------------------------------------------------
  // What the loaded table is
  // ---------------------------------------------------------------------------

  /** A row as `normalise_cpsc` leaves it: twelve cells, a positive Enrollment, and period stamps
      that agree with each other (the first of the month, and its label such as "Mar 2024"). */
  predicate CanonicalRow(row: seq<Cell>) {
    && |row| == 12 && IsPositive(row[7])
    && row[8].Int? && row[9].Int? && 1 <= row[9].n <= 12
    && row[10] == Date(row[8].n, row[9].n, 1)
    && row[11] == Str(PeriodLabel(row[8].n, row[9].n))
  }

  /** A frame as `normalise_cpsc` leaves it. */
  predicate Canonical(f: Table) {
    f.cols == CpscOutputCols && forall i | 0 <= i < |f.rows| :: CanonicalRow(f.rows[i])
  }

  /** A month is kept exactly when its raw frame has more than ten rows and normalising it does
      not raise: the repeated-label check after normalising never rejects a frame. */
  lemma AcceptSpec(x: MonthInput)
    requires Readable(x)
    ensures Accept(x).Some? <==>
              && Raw(x).Some? && |Raw(x).value.rows| > 10
              && NormaliseCpsc(Raw(x).value, x.year, x.month).Ok?
    ensures Accept(x).Some? ==> Accept(x).value == NormaliseCpsc(Raw(x).value, x.year, x.month).value
  {
    var raw := Raw(x);
    if raw.Some? && |raw.value.rows| > 10 && NormaliseCpsc(raw.value, x.year, x.month).Ok? {
      NormaliseCpscColumns(raw.value, x.year, x.month);
    }
  }

  /** What the normalisation lemmas say about a frame makes it canonical. */
  lemma CanonicalOfStamps(f: Table, year: int, m: Month)
    requires f.cols == CpscOutputCols
    requires forall i :: 0 <= i < |f.rows| ==> |f.rows[i]| == 12 && IsPositive(f.rows[i][7])
    requires forall i :: 0 <= i < |f.rows| ==>
              && |f.rows[i]| == 12
              && f.rows[i][8] == Int(year) && f.rows[i][9] == Int(m)
              && f.rows[i][10] == Date(year, m, 1) && f.rows[i][11] == Str(PeriodLabel(year, m))
    ensures Canonical(f)
  {
  }

  /** Every kept frame is canonical. */
  lemma AcceptCanonical(x: MonthInput)
    requires Readable(x)
    ensures Accept(x).Some? ==> Canonical(Accept(x).value)
  {
    if Accept(x).Some? {
      var raw := Raw(x).value;
      AcceptSpec(x);
      var f := NormaliseCpsc(raw, x.year, x.month).value;
      NormaliseCpscColumns(raw, x.year, x.month);
      NormaliseCpscPositive(raw, x.year, x.month);
      NormaliseCpscStamped(raw, x.year, x.month);
      CanonicalOfStamps(f, x.year, x.month);
    }
  }

  /** Bookkeeping one more outcome keeps every collected frame canonical. */
  lemma StepCanonical(c: Collected, o: Outcome)
    requires forall i | 0 <= i < |c.frames| :: Canonical(c.frames[i])
    requires o.frame.Some? ==> Canonical(o.frame.value)
    ensures forall i | 0 <= i < |Step(c, o).frames| :: Canonical(Step(c, o).frames[i])
  {
  }

  /** Every collected frame is canonical. */
  lemma {:induction false} CollectCanonical(xs: seq<MonthInput>)
    requires AllReadable(xs)
    ensures forall i | 0 <= i < |Collect(xs).frames| :: Canonical(Collect(xs).frames[i])
    decreases |xs|
  {
    if xs != [] {
      var n := |xs| - 1;
      CollectSnoc(xs, n);
      assert xs[..n + 1] == xs;
      CollectCanonical(xs[..n]);
      AcceptCanonical(xs[n]);
      StepCanonical(Collect(xs[..n]), OutcomeOf(xs[n]));
    }
  }

  /** Aligning frames that already have exactly the requested labels changes nothing. */
  lemma {:induction false} AlignAllNoop(fs: seq<Table>, allCols: seq<string>)
    requires AllWellFormed(fs) && NoDuplicates(allCols)
    requires forall i | 0 <= i < |fs| :: fs[i].cols == allCols
    ensures AlignAll(fs, allCols) == fs
    decreases |fs|
  {
    if fs != [] {
      var init := fs[..|fs| - 1];
      var last := fs[|fs| - 1];
      assert init + [last] == fs;
      assert forall i | 0 <= i < |init| :: init[i] == fs[i];
      AlignAllNoop(init, allCols);
      AlignNoop(last, allCols);
    }
  }

  /** The rows of canonical frames are canonical, and there are as many as the frames hold. */
  lemma {:induction false} RowsOfCanonical(fs: seq<Table>)
    requires forall i | 0 <= i < |fs| :: Canonical(fs[i])
    ensures |RowsOf(fs)| == TotalRows(fs)
    ensures forall i | 0 <= i < |RowsOf(fs)| :: CanonicalRow(RowsOf(fs)[i])
    decreases |fs|
  {
    if fs != [] {
      var init := fs[..|fs| - 1];
      var last := fs[|fs| - 1];
      RowsOfCanonical(init);
      var rs := RowsOf(fs);
      assert rs == RowsOf(init) + last.rows;
      forall i | 0 <= i < |rs| ensures CanonicalRow(rs[i]) {
        if i >= |RowsOf(init)| {
          assert rs[i] == last.rows[i - |RowsOf(init)|];
        }
      }
    }
  }

  /** `load_enrollment`'s result: the accepted frames' rows one after the other, as many as they
      hold together, each canonical; the header is `CPSC_OUTPUT_COLS`; and the two counters add up to the number of accepted months. */
  lemma LoadEnrollmentRows(xs: seq<MonthInput>)
    requires AllReadable(xs)
    ensures var r := LoadEnrollment(xs);
            var c := Collect(xs);
            && r.table.rows == RowsOf(c.frames)
            && |r.table.rows| == TotalRows(c.frames)
            && (forall i | 0 <= i < |r.table.rows| :: CanonicalRow(r.table.rows[i]))
            && (c.frames != [] ==> r.table.cols == CpscOutputCols)
            && r.localCount + r.liveCount == |c.frames|
  {
    CollectCanonical(xs);
    AssembleRows(Collect(xs));
  }

  /** The same for any bookkeeping whose frames are canonical. */
  lemma AssembleRows(c: Collected)
    requires AllWellFormed(c.frames) && |c.frames| == c.localCount + c.liveCount
    requires forall i | 0 <= i < |c.frames| :: Canonical(c.frames[i])
    ensures var r := Assemble(c);
            && r.table.rows == RowsOf(c.frames)
            && |r.table.rows| == TotalRows(c.frames)
            && (forall i | 0 <= i < |r.table.rows| :: CanonicalRow(r.table.rows[i]))
            && (c.frames != [] ==> r.table.cols == CpscOutputCols)
            && r.localCount + r.liveCount == |c.frames|
  {
    RowsOfCanonical(c.frames);
    if c.frames != [] {
      OutputColsDistinct();
      AlignAllNoop(c.frames, CpscOutputCols);
    }
  }

  /** A table of canonical rows under the canonical header is rectangular. */
  lemma CanonicalRowsWellFormed(t: Table)
    requires t.cols == CpscOutputCols && forall i | 0 <= i < |t.rows| :: CanonicalRow(t.rows[i])
    ensures WellFormed(t)
  {
    forall row | row in t.rows ensures |row| == |t.cols| {
      var i :| 0 <= i < |t.rows| && t.rows[i] == row;
    }
  }

  /** The loaded table is rectangular. */
  lemma AssembleWellFormed(c: Collected)
    requires AllWellFormed(c.frames) && |c.frames| == c.localCount + c.liveCount
    requires forall i | 0 <= i < |c.frames| :: Canonical(c.frames[i])
    ensures WellFormed(Assemble(c).table)
  {
    AssembleRows(c);
    if c.frames != [] {
      CanonicalRowsWellFormed(Assemble(c).table);
    }
  }

  /** No accepted month, and only then, yields the empty frame, with both counters at zero. */
  lemma LoadEnrollmentEmpty(xs: seq<MonthInput>)
    requires AllReadable(xs)
    ensures LoadEnrollment(xs).table == Table([], []) <==> Collect(xs).frames == []
    ensures Collect(xs).frames == [] ==> LoadEnrollment(xs).localCount == 0 && LoadEnrollment(xs).liveCount == 0
  {
  }

  /** One more requested month: skipped, it changes nothing; kept, its frame is appended and
      exactly one counter goes up, the local one whenever a local file exists. */
  lemma CollectMonth(xs: seq<MonthInput>, x: MonthInput)
    requires AllReadable(xs) && Readable(x)
    ensures AllReadable(xs + [x])
    ensures Accept(x).None? ==> Collect(xs + [x]) == Collect(xs)
    ensures Accept(x).Some? ==>
              && Collect(xs + [x]).frames == Collect(xs).frames + [Accept(x).value]
              && Collect(xs + [x]).localCount == Collect(xs).localCount + (if x.hasLocal then 1 else 0)
              && Collect(xs + [x]).liveCount == Collect(xs).liveCount + (if x.hasLocal then 0 else 1)
  {
    var ys := xs + [x];
    assert ys[..|xs|] == xs && ys[..|xs| + 1] == ys && ys[|xs|] == x;
    CollectSnoc(ys, |xs|);
  }

  /** The counter quirk: a month whose local file exists but was unreadable or too short, and
      whose live download is kept, is counted as local. */
  lemma LiveFrameCountedAsLocal(xs: seq<MonthInput>, x: MonthInput)
    requires AllReadable(xs) && Readable(x)
    requires x.hasLocal && (x.localRead.None? || |x.localRead.value.rows| <= 10)
    requires Accept(x).Some?
    ensures Raw(x) == x.live
    ensures AllReadable(xs + [x])
    ensures Collect(xs + [x]).localCount == Collect(xs).localCount + 1
    ensures Collect(xs + [x]).liveCount == Collect(xs).liveCount
  {
    CollectMonth(xs, x);
  }

  // ---------------------------------------------------------------------------
  // The loops, step by step
  // ---------------------------------------------------------------------------

  /** The alignment loop on a frame, in place. */
  method AlignInPlace(df: Frame, names: seq<string>)
    requires WellFormed(df.Contents())
    modifies df
    ensures df.Contents() == AlignFill(old(df.Contents()), names)
  {
    ghost var whole := AlignFill(df.Contents(), names);
    var k := 0;
    while k < |names|
      invariant 0 <= k <= |names| && WellFormed(df.Contents())
      invariant AlignFill(df.Contents(), names[k..]) == whole
    {
      ghost var before := df.Contents();
      var col := names[k];
      if col !in df.cols {
        df.Assign(col, ConstColumn(|df.rows|, if col == EnrollmentCol then Int(0) else Str("")));
        AssignAligns(before, df.Contents(), col);
      }
      AlignFillStep(before, df.Contents(), names, k, whole);
      k := k + 1;
    }
  }

  /** Assigning the default column under a missing label is `AlignOne`. */
  lemma AssignAligns(t: Table, r: Table, name: string)
    requires WellFormed(t) && name !in t.cols
    requires r == SetColumn(t, name, ConstColumn(|t.rows|, if name == EnrollmentCol then Int(0) else Str("")))
    ensures r == AlignOne(t, name)
  {
  }

  /** Aligning to `names[k..]` is aligning to `names[k]` and then to the rest. */
  lemma AlignFillStep(t: Table, r: Table, names: seq<string>, k: nat, whole: Table)
    requires WellFormed(t) && k < |names| && r == AlignOne(t, names[k])
    requires AlignFill(t, names[k..]) == whole
    ensures WellFormed(r) && AlignFill(r, names[k + 1..]) == whole
  {
    assert names[k..][0] == names[k] && names[k..][1..] == names[k + 1..];
  }

  /** The alignment of one frame, on a copy of its own. */
  method AlignFrame(f: Table, allCols: seq<string>) returns (r: Table)
    requires WellFormed(f)
    ensures r == Align(f, allCols)
  {
    var df := new Frame(f);
    AlignInPlace(df, allCols);
    r := Select(df.Contents(), allCols);
  }

  /** One month of the first loop: load, and keep the normalised frame unless normalising raised
      or left a repeated label. */
  method AcceptSteps(x: MonthInput) returns (accepted: Option<Table>)
    requires Readable(x)
    ensures accepted == Accept(x)
  {
    accepted := None;
    var raw := Raw(x);
    if raw.Some? && |raw.value.rows| > 10 {
      var normed := NormaliseCpscSteps(raw.value, x.year, x.month);
      if normed.Ok? && NoDuplicates(normed.value.cols) {
        accepted := Some(normed.value);
      }
    }
  }

  /** The first loop: each month is loaded, normalised and, unless that fails, counted. */
  method CollectSteps(xs: seq<MonthInput>) returns (c: Collected)
    requires AllReadable(xs)
    ensures c == Collect(xs)
  {
    var frames: seq<Table> := [];
    var localCount, liveCount := 0, 0;
    var i := 0;
    while i < |xs|
      invariant 0 <= i <= |xs|
      invariant Collect(xs[..i]) == Collected(frames, localCount, liveCount)
    {
      var x := xs[i];
      var accepted := AcceptSteps(x);
      CollectSnoc(xs, i);
      if accepted.Some? {
        frames := frames + [accepted.value];
        if x.hasLocal {
          localCount := localCount + 1;
        } else {
          liveCount := liveCount + 1;
        }
      }
      i := i + 1;
    }
    assert xs[..|xs|] == xs;
    c := Collected(frames, localCount, liveCount);
  }

  /** The second loop: every accepted frame aligned, in order. */
  method AlignFrames(fs: seq<Table>, allCols: seq<string>) returns (aligned: seq<Table>)
    requires AllWellFormed(fs)
    ensures aligned == AlignAll(fs, allCols)
  {
    aligned := [];
    var k := 0;
    while k < |fs|
      invariant 0 <= k <= |fs|
      invariant aligned == AlignAll(fs[..k], allCols)
    {
      AlignAllSnoc(fs, allCols, k);
      var a := AlignFrame(fs[k], allCols);
      aligned := aligned + [a];
      k := k + 1;
    }
    assert fs[..|fs|] == fs;
  }

  /** `load_enrollment(months)`, with the months' inputs in request order. */
  method LoadEnrollmentSteps(xs: seq<MonthInput>) returns (r: Loaded)
    requires AllReadable(xs)
    ensures r == LoadEnrollment(xs)
  {
    var c := CollectSteps(xs);
    if c.frames == [] {
      return Loaded(Table([], []), c.localCount, c.liveCount);
    }
    var aligned := AlignFrames(c.frames, CpscOutputCols);
    r := Loaded(Table(CpscOutputCols, RowsOf(aligned)), c.localCount, c.liveCount);
  }
}
