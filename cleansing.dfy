/** `_clean_enrollment` and `normalise_cpsc`: one month's extract brought to the canonical columns,
    with Enrollment parsed to a positive integer and the period stamped on every row. */
module Cleansing {
  import opened Outcomes
  import opened Strings
  import opened Tables
  import opened Columns
  import opened Aliases
  import opened Calendar

  const EnrollmentCol: string := "Enrollment"

  // ---------------------------------------------------------------------------
  // One Enrollment cell
  // ---------------------------------------------------------------------------

  /** The text of a cell after its commas are removed, every `*` becomes `0`, and it is stripped. */
  function EnrollmentText(c: Cell): (r: string)
    ensures ',' !in r && '*' !in r
    ensures r == [] || (!IsSpace(r[0]) && !IsSpace(r[|r| - 1]))
  {
    var replaced := ReplaceChar(RemoveChar(AsText(c), ','), '*', '0');
    TrimLacks(replaced, ',');
    TrimLacks(replaced, '*');
    Trim(replaced)
  }

  /** `pd.to_numeric(..., errors="coerce").fillna(0).astype(int)` on that text. */
  function EnrollmentValue(c: Cell): (v: int)
    ensures v != 0 ==> ParseInt(EnrollmentText(c)) == Some(v)
  {
    match ParseInt(EnrollmentText(c))
    case Some(v) => v
    case None => 0
  }

  /** Text made of digits and minus signs, ending in a digit, comes through the rewriting unchanged. */
  lemma PlainNumberText(s: string)
    requires forall i :: 0 <= i < |s| ==> IsDigit(s[i]) || s[i] == '-'
    requires s != [] && IsDigit(s[|s| - 1])
    ensures Trim(ReplaceChar(RemoveChar(s, ','), '*', '0')) == s
  {
    NumberTextLacks(s, ',');
    RemoveCharAbsent(s, ',');
    var removed := RemoveChar(s, ',');
    NumberTextLacks(s, '*');
    ReplaceCharAbsent(s, '*', '0');
    var replaced := ReplaceChar(removed, '*', '0');
    assert replaced == s;
    NumberTextEnds(s);
    TrimNoop(replaced);
  }

  lemma NumberTextEnds(s: string)
    requires forall i :: 0 <= i < |s| ==> IsDigit(s[i]) || s[i] == '-'
    requires s != [] && IsDigit(s[|s| - 1])
    ensures !IsSpace(s[0]) && !IsSpace(s[|s| - 1])
  {
    assert IsDigit(s[0]) || s[0] == '-';
  }

  lemma NumberTextLacks(s: string, c: char)
    requires forall i :: 0 <= i < |s| ==> IsDigit(s[i]) || s[i] == '-'
    requires !IsDigit(c) && c != '-'
    ensures c !in s
  {
  }

  /** An integer cell keeps its value, so cleaning a cleaned column changes nothing; the text
      `str(n)` reads as `n` too. */
  lemma EnrollmentOfInt(n: int)
    ensures EnrollmentValue(Int(n)) == n
    ensures EnrollmentValue(Str(IntToString(n))) == n
  {
    var s := IntToString(n);
    IntToStringChars(n);
    PlainNumberText(s);
    assert EnrollmentText(Int(n)) == s;
    ParseIntToString(n);
  }

  /** Whitespace holds neither a comma nor a `*`. */
  lemma SpacesLack(s: string, c: char)
    requires forall i :: 0 <= i < |s| ==> IsSpace(s[i])
    requires !IsSpace(c)
    ensures c !in s
  {
  }

  /** Any text that is `str(n)` with thousands separators inserted anywhere and whitespace around
      it reads as `n`: the rewriting removes the commas, the strip removes the whitespace, and
      nothing else is changed. */
  lemma EnrollmentOfPadded(pre: string, core: string, post: string, n: int)
    requires forall i :: 0 <= i < |pre| ==> IsSpace(pre[i])
    requires forall i :: 0 <= i < |post| ==> IsSpace(post[i])
    requires RemoveChar(core, ',') == IntToString(n) && '*' !in core
    ensures EnrollmentValue(Str(pre + core + post)) == n
  {
    var d := IntToString(n);
    IntToStringChars(n);
    SpacesLack(pre, ',');
    SpacesLack(post, ',');
    RemoveCharAppend(pre + core, post, ',');
    RemoveCharAppend(pre, core, ',');
    RemoveCharAbsent(pre, ',');
    RemoveCharAbsent(post, ',');
    var removed := pre + d + post;
    assert RemoveChar(pre + core + post, ',') == removed;
    SpacesLack(pre, '*');
    SpacesLack(post, '*');
    NumberTextLacks(d, '*');
    ReplaceCharAbsent(removed, '*', '0');
    NumberTextEnds(d);
    TrimPadded(pre, d, post);
    assert EnrollmentText(Str(pre + core + post)) == d;
    ParseIntToString(n);
  }

  /** How a text cell is read, given what each rewriting step produces. */
  lemma EnrollmentOfText(s: string, removed: string, replaced: string, v: Option<int>)
    requires RemoveChar(s, ',') == removed && ReplaceChar(removed, '*', '0') == replaced
    requires replaced == [] || (!IsSpace(replaced[0]) && !IsSpace(replaced[|replaced| - 1]))
    requires ParseInt(replaced) == v
    ensures EnrollmentValue(Str(s)) == if v.Some? then v.value else 0
  {
    TrimNoop(replaced);
  }

  lemma RemoveCommaExample()
    ensures RemoveChar("1,234", ',') == "1234"
  {
  }

  lemma ParseExample()
    ensures ParseInt("1234") == Some(1234)
  {
    assert AllDigits("1234");
    assert "1234"[..3] == "123" && "123"[..2] == "12" && "12"[..1] == "1";
    assert DigitsValue("1") == 1;
    assert DigitsValue("12") == 12;
    assert DigitsValue("123") == 123;
  }

  lemma ParseStarExample()
    ensures ParseInt("0") == Some(0) && ParseInt("10") == Some(10)
  {
    assert "10"[..1] == "1";
  }

  lemma ParseWordExample()
    ensures ParseInt("abc") == None
  {
  }

  /** Thousands separators are dropped: `"1,234"` is 1234. */
  lemma EnrollmentWithComma()
    ensures EnrollmentValue(Str("1,234")) == 1234
  {
    RemoveCommaExample();
    ReplaceCharAbsent("1234", '*', '0');
    ParseExample();
    EnrollmentOfText("1,234", "1234", "1234", Some(1234));
  }

  /** A masked count `"*"` reads as 0. */
  lemma EnrollmentMasked()
    ensures EnrollmentValue(Str("*")) == 0
  {
    RemoveCharAbsent("*", ',');
    assert ReplaceChar("*", '*', '0') == "0";
    ParseStarExample();
    EnrollmentOfText("*", "*", "0", Some(0));
  }

  /** Text that is not a number reads as 0. */
  lemma EnrollmentNotANumber()
    ensures EnrollmentValue(Str("abc")) == 0
  {
    RemoveCharAbsent("abc", ',');
    ReplaceCharAbsent("abc", '*', '0');
    ParseWordExample();
    EnrollmentOfText("abc", "abc", "abc", None);
  }

  /** Every `*` is replaced, not only a lone one: `"1*"` reads as 10. */
  lemma EnrollmentStarInside()
    ensures EnrollmentValue(Str("1*")) == 10
  {
    RemoveCharAbsent("1*", ',');
    assert ReplaceChar("1*", '*', '0') == "10";
    ParseStarExample();
    EnrollmentOfText("1*", "1*", "10", Some(10));
  }

  // ---------------------------------------------------------------------------
  // Finding the Enrollment column
  // ---------------------------------------------------------------------------

  /** The label mentions "enroll", ignoring case. */
  predicate MentionsEnroll(name: string) {
    Contains(Lower(name), "enroll")
  }

  /** The first step of `_clean_enrollment`: an existing Enrollment column is kept; otherwise every
      column carrying the first label that mentions "enroll" is renamed to it; otherwise a column of
      zeros is added. */
  function WithEnrollment(t: Table): (r: Table)
    requires WellFormed(t)
    ensures WellFormed(r) && |r.rows| == |t.rows|
  {
    if EnrollmentCol in t.cols then t
    else
      var k := FirstIndex(t.cols, MentionsEnroll);
      if k < |t.cols| then Table(ApplyRename(t.cols, map[t.cols[k] := EnrollmentCol]), t.rows)
      else SetConst(t, EnrollmentCol, Int(0))
  }

  /** `df.rename(columns={a: b})` changes the multiplicity of `a`, of `b` and of nothing else. */
  lemma {:induction false} RenameOneCount(cols: seq<string>, a: string, b: string, x: string)
    requires a != b
    ensures Count(ApplyRename(cols, map[a := b]), x)
            == if x == b then Count(cols, a) + Count(cols, b) else if x == a then 0 else Count(cols, x)
  {
    if cols != [] {
      var n := |cols| - 1;
      var init := cols[..n];
      var e := if cols[n] == a then b else cols[n];
      RenameOneCount(init, a, b, x);
      assert cols == init + [cols[n]];
      assert ApplyRename(cols, map[a := b]) == ApplyRename(init, map[a := b]) + [e];
      CountSnoc(init, cols[n], x);
      CountSnoc(init, cols[n], a);
      CountSnoc(init, cols[n], b);
      CountSnoc(ApplyRename(init, map[a := b]), e, x);
    }
  }

  /** The three cases of the first step, each stated against the input. */
  lemma WithEnrollmentSpec(t: Table, k: nat)
    requires WellFormed(t)
    ensures EnrollmentCol in t.cols ==> WithEnrollment(t) == t
    ensures EnrollmentCol !in t.cols && k < |t.cols| && MentionsEnroll(t.cols[k])
            && (forall j :: 0 <= j < k ==> !MentionsEnroll(t.cols[j])) ==>
              var r := WithEnrollment(t);
              && r.rows == t.rows && |r.cols| == |t.cols|
              && forall i :: 0 <= i < |t.cols| ==> r.cols[i] == if t.cols[i] == t.cols[k] then EnrollmentCol else t.cols[i]
    ensures EnrollmentCol !in t.cols && (forall j :: 0 <= j < |t.cols| ==> !MentionsEnroll(t.cols[j])) ==>
              var r := WithEnrollment(t);
              && r.cols == t.cols + [EnrollmentCol]
              && forall i :: 0 <= i < |r.rows| ==> r.rows[i] == t.rows[i] + [Int(0)]
  {
    if EnrollmentCol !in t.cols && k < |t.cols| && MentionsEnroll(t.cols[k])
       && (forall j :: 0 <= j < k ==> !MentionsEnroll(t.cols[j])) {
      FirstIndexAt(t.cols, MentionsEnroll, k);
    }
  }

  /** How many Enrollment columns the first step leaves: as many as there were, or as many as carry
      the first "enroll" label, or the one added. No other label gains columns. */
  lemma WithEnrollmentCount(t: Table, x: string)
    requires WellFormed(t)
    ensures var k := FirstIndex(t.cols, MentionsEnroll);
            Count(WithEnrollment(t).cols, EnrollmentCol)
            == if EnrollmentCol in t.cols then Count(t.cols, EnrollmentCol)
               else if k < |t.cols| then Count(t.cols, t.cols[k])
               else 1
    ensures Count(WithEnrollment(t).cols, EnrollmentCol) >= 1
    ensures x != EnrollmentCol ==> Count(WithEnrollment(t).cols, x) <= Count(t.cols, x)
  {
    var k := FirstIndex(t.cols, MentionsEnroll);
    if EnrollmentCol !in t.cols {
      if k < |t.cols| {
        RenameOneCount(t.cols, t.cols[k], EnrollmentCol, EnrollmentCol);
        RenameOneCount(t.cols, t.cols[k], EnrollmentCol, x);
        assert t.cols[k] in multiset(t.cols);
      } else {
        SetColumnCounts(t, EnrollmentCol, ConstColumn(|t.rows|, Int(0)), x);
        SetColumnCounts(t, EnrollmentCol, ConstColumn(|t.rows|, Int(0)), EnrollmentCol);
      }
    }
  }

  // ---------------------------------------------------------------------------
  // `_clean_enrollment`
  // ---------------------------------------------------------------------------

  /** A cell the final filter keeps. */
  predicate IsPositive(c: Cell) {
    c.Int? && c.n > 0
  }

  /** The filter `df["Enrollment"] > 0` for the column at position `j`. */
  predicate PositiveAt(j: nat, row: seq<Cell>) {
    j < |row| && IsPositive(row[j])
  }

  /** A row with its Enrollment cell (at `j`) replaced by the parsed integer. */
  function ParsedRow(row: seq<Cell>, j: nat): (r: seq<Cell>)
    requires j < |row|
    ensures |r| == |row| && r[j] == Int(EnrollmentValue(row[j]))
    ensures forall i :: 0 <= i < |row| && i != j ==> r[i] == row[i]
  {
    row[j := Int(EnrollmentValue(row[j]))]
  }

  /** Every row with its Enrollment cell parsed. */
  function ParsedRows(t: Table, j: nat): (rs: seq<seq<Cell>>)
    requires WellFormed(t) && j < |t.cols|
    ensures |rs| == |t.rows|
    ensures forall i :: 0 <= i < |t.rows| ==> |t.rows[i]| == |t.cols| && rs[i] == ParsedRow(t.rows[i], j)
  {
    seq(|t.rows|, i requires 0 <= i < |t.rows| => assert t.rows[i] in t.rows; ParsedRow(t.rows[i], j))
  }

  /** The parsed values of column `j`, one per row. */
  function ParsedValues(t: Table, j: nat): (vs: seq<Cell>)
    requires WellFormed(t) && j < |t.cols|
    ensures |vs| == |t.rows|
  {
    seq(|t.rows|, i requires 0 <= i < |t.rows| => assert t.rows[i] in t.rows; Int(EnrollmentValue(t.rows[i][j])))
  }

  /** `_clean_enrollment`: fails when Enrollment ends up naming several columns (`.str` on a
      DataFrame raises); otherwise parses the column and keeps the rows whose value is positive. */
  function CleanEnrollment(t: Table): (r: Result<Table>)
    requires WellFormed(t)
    ensures r.Ok? ==> WellFormed(r.value) && |r.value.rows| <= |t.rows|
    ensures r.Err? ==> r.failure == DuplicateColumn(EnrollmentCol)
  {
    var w := WithEnrollment(t);
    if Count(w.cols, EnrollmentCol) != 1 then Err(DuplicateColumn(EnrollmentCol))
    else
      var j := IndexOf(w.cols, EnrollmentCol);
      KeepPositive(SetColumn(w, EnrollmentCol, ParsedValues(w, j)), j)
  }

  /** `df[df["Enrollment"] > 0]` for the column at position `j`. */
  function KeepPositive(t: Table, j: nat): (r: Result<Table>)
    requires WellFormed(t)
    ensures r.Ok? && WellFormed(r.value) && r.value.cols == t.cols && |r.value.rows| <= |t.rows|
  {
    Ok(FilterRows(t, row => PositiveAt(j, row)))
  }

  /** The step fails exactly when the Enrollment label, or the first "enroll" label it is taken
      from, already names several columns. */
  lemma CleanEnrollmentFails(t: Table)
    requires WellFormed(t)
    ensures var k := FirstIndex(t.cols, MentionsEnroll);
            CleanEnrollment(t).Err? <==>
              if EnrollmentCol in t.cols then Count(t.cols, EnrollmentCol) > 1
              else k < |t.cols| && Count(t.cols, t.cols[k]) > 1
  {
    WithEnrollmentCount(t, EnrollmentCol);
  }

  /** When Enrollment labels one column, assigning it rewrites exactly that cell of each row. */
  lemma SetUniqueColumn(t: Table, j: nat, values: seq<Cell>)
    requires WellFormed(t) && j < |t.cols| && t.cols[j] == EnrollmentCol && Count(t.cols, EnrollmentCol) == 1
    requires |values| == |t.rows|
    ensures var r := SetColumn(t, EnrollmentCol, values);
            r.cols == t.cols && forall i :: 0 <= i < |t.rows| ==> r.rows[i] == t.rows[i][j := values[i]]
  {
    var r := SetColumn(t, EnrollmentCol, values);
    forall i | 0 <= i < |t.rows| ensures r.rows[i] == t.rows[i][j := values[i]] {
      assert t.rows[i] in t.rows && r.rows[i] in r.rows;
      forall c | 0 <= c < |t.cols| && c != j ensures t.cols[c] != EnrollmentCol {
        if c < j { RepeatCounts(t.cols, c, j); } else { RepeatCounts(t.cols, j, c); }
      }
    }
  }

  /** What a successful clean returns: the rows of the input, with Enrollment parsed, that have a
      positive value, in their original order. */
  lemma CleanEnrollmentRows(t: Table)
    requires WellFormed(t) && CleanEnrollment(t).Ok?
    ensures var w := WithEnrollment(t);
            var j := IndexOf(w.cols, EnrollmentCol);
            var r := CleanEnrollment(t).value;
            && r.cols == w.cols
            && r.rows == Keep(ParsedRows(w, j), row => PositiveAt(j, row))
  {
    var w := WithEnrollment(t);
    var j := IndexOf(w.cols, EnrollmentCol);
    SetUniqueColumn(w, j, ParsedValues(w, j));
    var parsed := SetColumn(w, EnrollmentCol, ParsedValues(w, j));
    assert parsed.rows == ParsedRows(w, j);
  }

  /** Every row kept has a positive Enrollment; the kept rows are the parsed input rows in their
      original order, and no parsed row with a positive value is dropped. */
  lemma CleanEnrollmentKeeps(t: Table)
    requires WellFormed(t) && CleanEnrollment(t).Ok?
    ensures var w := WithEnrollment(t);
            var j := IndexOf(w.cols, EnrollmentCol);
            var r := CleanEnrollment(t).value;
            && ColumnHolds(r, EnrollmentCol, IsPositive)
            && IsSubsequence(r.rows, ParsedRows(w, j))
            && forall row | row in ParsedRows(w, j) && PositiveAt(j, row) :: row in r.rows
  {
    var w := WithEnrollment(t);
    var j := IndexOf(w.cols, EnrollmentCol);
    var r := CleanEnrollment(t).value;
    CleanEnrollmentRows(t);
    var parsed := ParsedRows(w, j);
    var positive := row => PositiveAt(j, row);
    assert r.rows == Keep(parsed, positive);
    KeepIsSubsequence(parsed, positive);
    forall row | row in parsed && PositiveAt(j, row) ensures row in r.rows {
      KeepComplete(parsed, positive, row);
    }
    KeptPositive(r, j, parsed);
  }

  /** Rows kept by the `> 0` mask on the only Enrollment column hold a positive Enrollment. */
  lemma KeptPositive(r: Table, j: nat, parsed: seq<seq<Cell>>)
    requires WellFormed(r) && j < |r.cols| && r.cols[j] == EnrollmentCol && Count(r.cols, EnrollmentCol) == 1
    requires r.rows == Keep(parsed, row => PositiveAt(j, row))
    ensures ColumnHolds(r, EnrollmentCol, IsPositive)
  {
    forall i, c | 0 <= i < |r.rows| && 0 <= c < |r.cols| && r.cols[c] == EnrollmentCol
      ensures IsPositive(r.rows[i][c])
    {
      assert r.rows[i] in r.rows;
      OnceAt(r.cols, j, c);
    }
  }

  /** A parsed row whose Enrollment is already a positive integer is left as it was. */
  lemma ParsedRowOfPositive(row: seq<Cell>, j: nat)
    requires PositiveAt(j, row)
    ensures ParsedRow(row, j) == row
  {
    EnrollmentOfInt(row[j].n);
  }

  /** Cleaning a cleaned frame changes nothing. */
  lemma CleanEnrollmentIdempotent(t: Table)
    requires WellFormed(t) && CleanEnrollment(t).Ok?
    ensures CleanEnrollment(CleanEnrollment(t).value) == CleanEnrollment(t)
  {
    var w := WithEnrollment(t);
    var j := IndexOf(w.cols, EnrollmentCol);
    var r := CleanEnrollment(t).value;
    CleanEnrollmentRows(t);
    assert w.cols[j] in multiset(w.cols);
    assert WithEnrollment(r) == r;
    assert IndexOf(r.cols, EnrollmentCol) == j;
    forall row | row in r.rows ensures PositiveAt(j, row) {
    }
    forall i | 0 <= i < |r.rows| ensures ParsedRows(r, j)[i] == r.rows[i] {
      assert r.rows[i] in r.rows;
      ParsedRowOfPositive(r.rows[i], j);
    }
    assert ParsedRows(r, j) == r.rows;
    SetUniqueColumn(r, j, ParsedValues(r, j));
    assert SetColumn(r, EnrollmentCol, ParsedValues(r, j)).rows == r.rows;
    KeepAll(r.rows, row => PositiveAt(j, row));
  }

  /** `_clean_enrollment` step by step on a frame of its own: rename or add the column, then assign
      the parsed values, then filter. */
  method CleanEnrollmentSteps(t: Table) returns (r: Result<Table>)
    requires WellFormed(t)
    ensures r == CleanEnrollment(t)
  {
    var df := new Frame(t);
    if EnrollmentCol !in t.cols {
      var k := FirstIndex(t.cols, MentionsEnroll);
      if k < |t.cols| {
        df := new Frame(Table(ApplyRename(t.cols, map[t.cols[k] := EnrollmentCol]), t.rows));
      } else {
        df.Assign(EnrollmentCol, ConstColumn(|t.rows|, Int(0)));
      }
    }
    assert df.Contents() == WithEnrollment(t);
    if Count(df.cols, EnrollmentCol) != 1 {
      return Err(DuplicateColumn(EnrollmentCol));
    }
    var j := IndexOf(df.cols, EnrollmentCol);
    df.Assign(EnrollmentCol, ParsedValues(df.Contents(), j));
    r := KeepPositive(df.Contents(), j);
  }

  // ---------------------------------------------------------------------------
  // `normalise_cpsc`
  // ---------------------------------------------------------------------------

  const StateCol: string := "State"
  const SsaCodeCol: string := "SSA_Code"

  /** `CPSC_OUTPUT_COLS`: the canonical columns of a monthly frame, in order. */
  const CpscOutputCols: seq<string> := [
    "Contract_ID", "Plan_ID", "Segment_ID", "Org_Name",
    "State", "County", "Plan_Type", "Enrollment",
    "Year", "Month", "Period", "Period_Label"
  ]

  /** The columns that are added, empty, when missing. */
  const FillCols: seq<string> := ["State", "County", "Contract_ID", "Plan_ID", "Plan_Type", "Org_Name", "Segment_ID"]

  /** `str(cell).zfill(5)`. */
  function PaddedCode(c: Cell): (s: string)
    ensures |s| >= 5
  {
    ZFill(AsText(c), 5)
  }

  /** Deriving State: only when State is missing and SSA_Code is present, the code column is
      zero-padded to five characters and State is set to its first two. A repeated SSA_Code label
      makes `.str` raise. */
  function DeriveState(t: Table): (r: Result<Table>)
    requires WellFormed(t)
    ensures r.Ok? ==> WellFormed(r.value) && |r.value.rows| == |t.rows|
    ensures r.Err? ==> r.failure == DuplicateColumn(SsaCodeCol)
  {
    if StateCol in t.cols || SsaCodeCol !in t.cols then Ok(t)
    else if Count(t.cols, SsaCodeCol) != 1 then Err(DuplicateColumn(SsaCodeCol))
    else
      var j := IndexOf(t.cols, SsaCodeCol);
      var codes := seq(|t.rows|, i requires 0 <= i < |t.rows| => assert t.rows[i] in t.rows; Str(PaddedCode(t.rows[i][j])));
      var padded := SetColumn(t, SsaCodeCol, codes);
      Ok(SetColumn(padded, StateCol, seq(|t.rows|, i requires 0 <= i < |t.rows| => Str(codes[i].s[..2]))))
  }

  /** State is derived only when it is missing; then every row's State is the first two characters
      of its padded code, the code cell is the padded original and nothing else changes. */
  lemma DeriveStateSpec(t: Table)
    requires WellFormed(t)
    ensures StateCol in t.cols || SsaCodeCol !in t.cols ==> DeriveState(t) == Ok(t)
    ensures StateCol !in t.cols && SsaCodeCol in t.cols ==> (DeriveState(t).Err? <==> Count(t.cols, SsaCodeCol) > 1)
    ensures StateCol !in t.cols && SsaCodeCol in t.cols && DeriveState(t).Ok? ==>
              var j := IndexOf(t.cols, SsaCodeCol);
              var r := DeriveState(t).value;
              && r.cols == t.cols + [StateCol]
              && forall i :: 0 <= i < |t.rows| ==>
                   && r.rows[i] == t.rows[i][j := Str(PaddedCode(t.rows[i][j]))] + [r.rows[i][|t.cols|]]
                   && r.rows[i][|t.cols|] == Str(r.rows[i][j].s[..2])
  {
    if StateCol !in t.cols && SsaCodeCol in t.cols {
      assert t.cols[IndexOf(t.cols, SsaCodeCol)] in multiset(t.cols);
      if Count(t.cols, SsaCodeCol) == 1 {
        var j := IndexOf(t.cols, SsaCodeCol);
        var codes := seq(|t.rows|, i requires 0 <= i < |t.rows| => assert t.rows[i] in t.rows; Str(PaddedCode(t.rows[i][j])));
        SetUniqueCode(t, j, codes);
      }
    }
  }

  lemma SetUniqueCode(t: Table, j: nat, values: seq<Cell>)
    requires WellFormed(t) && j < |t.cols| && t.cols[j] == SsaCodeCol && Count(t.cols, SsaCodeCol) == 1
    requires |values| == |t.rows|
    ensures var r := SetColumn(t, SsaCodeCol, values);
            r.cols == t.cols && forall i :: 0 <= i < |t.rows| ==> r.rows[i] == t.rows[i][j := values[i]]
  {
    var r := SetColumn(t, SsaCodeCol, values);
    forall i | 0 <= i < |t.rows| ensures r.rows[i] == t.rows[i][j := values[i]] {
      assert t.rows[i] in t.rows && r.rows[i] in r.rows;
      forall c | 0 <= c < |t.cols| && c != j ensures t.cols[c] != SsaCodeCol {
        if c < j { RepeatCounts(t.cols, c, j); } else { RepeatCounts(t.cols, j, c); }
      }
    }
  }

  /** One turn of the guarantee loop: `if col not in df.columns: df[col] = ""`. */
  function FillOne(t: Table, name: string): (r: Table)
    requires WellFormed(t)
    ensures WellFormed(r) && |r.rows| == |t.rows|
    ensures r.cols == if name in t.cols then t.cols else t.cols + [name]
  {
    if name in t.cols then t else SetConst(t, name, Str(""))
  }

  /** Every row gains an empty cell when the column is added. */
  lemma FillOneRows(t: Table, name: string)
    requires WellFormed(t)
    ensures forall i :: 0 <= i < |t.rows| ==>
              FillOne(t, name).rows[i] == if name in t.cols then t.rows[i] else t.rows[i] + [Str("")]
  {
    var r := FillOne(t, name);
    forall i | 0 <= i < |t.rows|
      ensures r.rows[i] == if name in t.cols then t.rows[i] else t.rows[i] + [Str("")]
    {
      assert t.rows[i] in t.rows && r.rows[i] in r.rows;
    }
  }

  /** The guarantee loop: each listed column that is missing is added, filled with `""`. */
  function FillMissing(t: Table, names: seq<string>): (r: Table)
    requires WellFormed(t)
    ensures WellFormed(r) && |r.rows| == |t.rows| && |t.cols| <= |r.cols|
    decreases |names|
  {
    if names == [] then t else FillMissing(FillOne(t, names[0]), names[1..])
  }

  /** Filling keeps the existing columns in place and only appends. */
  lemma {:induction false} FillMissingCols(t: Table, names: seq<string>)
    requires WellFormed(t)
    ensures FillMissing(t, names).cols[..|t.cols|] == t.cols
    decreases |names|
  {
    if names != [] {
      var u := FillOne(t, names[0]);
      FillMissingCols(u, names[1..]);
      var r := FillMissing(t, names);
      assert r == FillMissing(u, names[1..]);
      assert r.cols[..|u.cols|][..|t.cols|] == r.cols[..|t.cols|];
    }
  }

  /** Filling keeps every existing cell where it was. */
  lemma {:induction false} FillMissingRows(t: Table, names: seq<string>)
    requires WellFormed(t)
    ensures var r := FillMissing(t, names);
            forall i :: 0 <= i < |t.rows| ==> r.rows[i][..|t.cols|] == t.rows[i]
    decreases |names|
  {
    if names != [] {
      var u := FillOne(t, names[0]);
      FillMissingRows(u, names[1..]);
      var r := FillMissing(t, names);
      assert r == FillMissing(u, names[1..]);
      forall i | 0 <= i < |t.rows| ensures r.rows[i][..|t.cols|] == t.rows[i] {
        FillOnePrefix(t, names[0], i);
        PrefixOfPrefix(r.rows[i], u.rows[i], t.rows[i]);
      }
    }
  }

  /** One turn of the guarantee loop keeps each row's existing cells in front. */
  lemma FillOnePrefix(t: Table, name: string, i: nat)
    requires WellFormed(t) && i < |t.rows|
    ensures |t.cols| <= |FillOne(t, name).cols|
    ensures FillOne(t, name).rows[i][..|t.cols|] == t.rows[i]
  {
    var r := FillOne(t, name);
    assert t.rows[i] in t.rows && r.rows[i] in r.rows;
    FillOneRows(t, name);
    if name in t.cols {
      assert r.rows[i] == t.rows[i];
    } else {
      assert r.rows[i] == t.rows[i] + [Str("")];
    }
  }

  /** A listed label that occurred at most once labels one column after filling, holding the old
      cells when the label existed and empty text when it was added. */
  lemma FillMissingCell(t: Table, names: seq<string>, x: string, i: nat)
    requires WellFormed(t) && x in names && Count(t.cols, x) <= 1 && i < |t.rows|
    ensures var f := FillMissing(t, names);
            && x in f.cols && |f.rows[i]| == |f.cols| && |t.rows[i]| == |t.cols|
            && f.rows[i][IndexOf(f.cols, x)] == if x in t.cols then t.rows[i][IndexOf(t.cols, x)] else Str("")
  {
    var f := FillMissing(t, names);
    FillMissingCounts(t, names, x);
    assert x in multiset(f.cols);
    var at := IndexOf(f.cols, x);
    assert f.rows[i] in f.rows && t.rows[i] in t.rows;
    if x in t.cols {
      var q := IndexOf(t.cols, x);
      FillMissingCols(t, names);
      FillMissingRows(t, names);
      assert f.cols[..|t.cols|][q] == f.cols[q];
      assert f.rows[i][..|t.cols|][q] == f.rows[i][q];
      OnceAt(f.cols, q, at);
    } else {
      FillMissingBlank(t, names, x);
      assert IsBlank(f.rows[i][at]);
    }
  }

  /** Filling never makes a label repeat. */
  lemma {:induction false} FillMissingCounts(t: Table, names: seq<string>, x: string)
    requires WellFormed(t)
    ensures Count(t.cols, x) <= 1 ==> Count(FillMissing(t, names).cols, x) <= 1
    ensures Count(t.cols, x) >= 1 || x in names ==> Count(FillMissing(t, names).cols, x) >= 1
    decreases |names|
  {
    if names != [] {
      var u := FillOne(t, names[0]);
      if names[0] !in t.cols {
        SetColumnKeepsCounts(t, names[0], ConstColumn(|t.rows|, Str("")), x);
      } else if x == names[0] {
        assert x in multiset(t.cols);
      }
      FillMissingCounts(u, names[1..], x);
    }
  }

  /** Filling leaves alone a column that exists or is not listed. */
  lemma {:induction false} FillMissingKeepsOther(t: Table, names: seq<string>, other: string, p: Cell -> bool)
    requires WellFormed(t) && (other in t.cols || other !in names) && ColumnHolds(t, other, p)
    ensures ColumnHolds(FillMissing(t, names), other, p)
    decreases |names|
  {
    if names != [] {
      var u := FillOne(t, names[0]);
      if names[0] !in t.cols {
        SetColumnKeepsOther(t, names[0], ConstColumn(|t.rows|, Str("")), other, p);
      }
      FillMissingKeepsOther(u, names[1..], other, p);
    }
  }

  predicate IsBlank(c: Cell) {
    c == Str("")
  }

  /** A listed column that was missing ends up holding empty text in every row. */
  lemma {:induction false} FillMissingBlank(t: Table, names: seq<string>, x: string)
    requires WellFormed(t) && x in names && x !in t.cols
    ensures ColumnHolds(FillMissing(t, names), x, IsBlank)
    decreases |names|
  {
    var u := FillOne(t, names[0]);
    if names[0] == x {
      SetColumnHolds(t, x, ConstColumn(|t.rows|, Str("")), IsBlank);
      FillMissingKeepsOther(u, names[1..], x, IsBlank);
    } else {
      FillMissingBlank(u, names[1..], x);
    }
  }

  /** The four period columns assigned to every row. */
  function Stamp(t: Table, year: int, m: Month): (r: Table)
    requires WellFormed(t)
    ensures WellFormed(r) && |r.rows| == |t.rows|
  {
    var t1 := SetConst(t, "Year", Int(year));
    var t2 := SetConst(t1, "Month", Int(m));
    var t3 := SetConst(t2, "Period", Date(year, m, 1));
    SetConst(t3, "Period_Label", Str(PeriodLabel(year, m)))
  }

  /** The columns of `CPSC_OUTPUT_COLS` present in `t`, in canonical order. */
  function PresentOutputCols(t: Table): seq<string> {
    Keep(CpscOutputCols, c => c in t.cols)
  }

  /** The frame with its labels normalised against the enrollment aliases. */
  function Named(raw: Table): (r: Table)
    requires WellFormed(raw)
    ensures WellFormed(r) && r.rows == raw.rows
  {
    Table(NormaliseCols(raw.cols, CpscAliases), raw.rows)
  }

  /** Everything after the Enrollment column is cleaned. */
  function Finish(cleaned: Table, year: int, m: Month): (r: Result<Table>)
    requires WellFormed(cleaned)
    ensures r.Ok? ==> WellFormed(r.value) && |r.value.rows| == |cleaned.rows|
    ensures r.Err? ==> r.failure == DuplicateColumn(SsaCodeCol)
  {
    match DeriveState(cleaned)
    case Err(e) => Err(e)
    case Ok(derived) =>
      var stamped := Stamp(FillMissing(derived, FillCols), year, m);
      Ok(Select(stamped, PresentOutputCols(stamped)))
  }

  /** `normalise_cpsc(df, year, month)`. */
  function NormaliseCpsc(raw: Table, year: int, m: Month): (r: Result<Table>)
    requires WellFormed(raw)
    ensures r.Ok? ==> WellFormed(r.value) && |r.value.rows| <= |raw.rows|
    ensures r.Err? ==> r.failure == DuplicateColumn(EnrollmentCol) || r.failure == DuplicateColumn(SsaCodeCol)
  {
    match CleanEnrollment(Named(raw))
    case Err(e) => Err(e)
    case Ok(cleaned) => Finish(cleaned, year, m)
  }

  /** The State derivation on a frame, in place; `false` when the repeated SSA_Code label makes
      `.str` raise. */
  method DeriveStateInPlace(df: Frame) returns (ok: bool)
    requires WellFormed(df.Contents())
    modifies df
    ensures ok ==> DeriveState(old(df.Contents())) == Ok(df.Contents())
    ensures !ok ==> DeriveState(old(df.Contents())) == Err(DuplicateColumn(SsaCodeCol))
  {
    ok := true;
    if StateCol !in df.cols && SsaCodeCol in df.cols {
      if Count(df.cols, SsaCodeCol) != 1 {
        return false;
      }
      var t := df.Contents();
      var j := IndexOf(t.cols, SsaCodeCol);
      var codes := seq(|t.rows|, i requires 0 <= i < |t.rows| => assert t.rows[i] in t.rows; Str(PaddedCode(t.rows[i][j])));
      df.Assign(SsaCodeCol, codes);
      df.Assign(StateCol, seq(|t.rows|, i requires 0 <= i < |t.rows| => Str(codes[i].s[..2])));
    }
  }

  /** The guarantee loop on a frame, in place. */
  method FillMissingInPlace(df: Frame, names: seq<string>)
    requires WellFormed(df.Contents())
    modifies df
    ensures df.Contents() == FillMissing(old(df.Contents()), names)
  {
    ghost var whole := FillMissing(df.Contents(), names);
    var k := 0;
    while k < |names|
      invariant 0 <= k <= |names| && WellFormed(df.Contents())
      invariant FillMissing(df.Contents(), names[k..]) == whole
    {
      ghost var before := df.Contents();
      FillOneInPlace(df, names[k]);
      FillMissingStep(before, df.Contents(), names, k, whole);
      k := k + 1;
    }
  }

  /** One turn of the guarantee loop on a frame, in place. */
  method FillOneInPlace(df: Frame, name: string)
    requires WellFormed(df.Contents())
    modifies df
    ensures df.Contents() == FillOne(old(df.Contents()), name)
  {
    if name !in df.cols {
      ghost var before := df.Contents();
      df.Assign(name, ConstColumn(|df.rows|, Str("")));
      AssignFills(before, df.Contents(), name);
    }
  }

  /** Assigning an empty column under a missing label is `FillOne`. */
  lemma AssignFills(t: Table, r: Table, name: string)
    requires WellFormed(t) && name !in t.cols
    requires r == SetColumn(t, name, ConstColumn(|t.rows|, Str("")))
    ensures r == FillOne(t, name)
  {
  }

  /** Filling `names[k..]` is filling `names[k]` and then the rest. */
  lemma FillMissingStep(t: Table, r: Table, names: seq<string>, k: nat, whole: Table)
    requires WellFormed(t) && k < |names| && r == FillOne(t, names[k])
    requires FillMissing(t, names[k..]) == whole
    ensures WellFormed(r) && FillMissing(r, names[k + 1..]) == whole
  {
    assert names[k..][0] == names[k] && names[k..][1..] == names[k + 1..];
  }

  /** The four period assignments on a frame, in place. */
  method StampInPlace(df: Frame, year: int, m: Month)
    requires WellFormed(df.Contents())
    modifies df
    ensures df.Contents() == Stamp(old(df.Contents()), year, m)
  {
    df.Assign("Year", ConstColumn(|df.rows|, Int(year)));
    df.Assign("Month", ConstColumn(|df.rows|, Int(m)));
    df.Assign("Period", ConstColumn(|df.rows|, Date(year, m, 1)));
    df.Assign("Period_Label", ConstColumn(|df.rows|, Str(PeriodLabel(year, m))));
  }

  /** Everything after the clean, on a copy of the cleaned frame that the State derivation, the
      guarantee loop and the four stamps update in place before the canonical columns are
      selected. */
  method FinishSteps(cleaned: Table, year: int, m: Month) returns (r: Result<Table>)
    requires WellFormed(cleaned)
    ensures r == Finish(cleaned, year, m)
  {
    var df := new Frame(cleaned);
    var ok := DeriveStateInPlace(df);
    if !ok {
      return Err(DuplicateColumn(SsaCodeCol));
    }
    FillMissingInPlace(df, FillCols);
    StampInPlace(df, year, m);
    var stamped := df.Contents();
    r := Ok(Select(stamped, PresentOutputCols(stamped)));
  }

  /** `normalise_cpsc` step by step. */
  method NormaliseCpscSteps(raw: Table, year: int, m: Month) returns (r: Result<Table>)
    requires WellFormed(raw)
    ensures r == NormaliseCpsc(raw, year, m)
  {
    var named := NormaliseColumns(raw.cols, CpscAliases);
    var cleaned := CleanEnrollmentSteps(Table(named, raw.rows));
    if cleaned.Err? {
      return Err(cleaned.failure);
    }
    r := FinishSteps(cleaned.value, year, m);
  }

  // ---------------------------------------------------------------------------
  // The shape of a normalised month
  // ---------------------------------------------------------------------------

  /** No canonical output name ends in `_<digits>`. */
  lemma OutputColsUntagged()
    ensures forall l | l in CpscOutputCols :: !HasTag(l, FinalSeparator)
  {
    forall l | l in CpscOutputCols ensures !HasTag(l, FinalSeparator) {
      NoTagWhenLastNotDigit(l, FinalSeparator);
    }
  }

  /** The canonical names are pairwise different. */
  lemma OutputColsDistinct()
    ensures NoDuplicates(CpscOutputCols)
  {
  }

  /** A monthly frame carries no parent organisation. */
  lemma OutputColsLackParent()
    ensures "Parent_Org" !in CpscOutputCols
  {
  }

  /** The first column of a monthly frame, the contract, occurs once. */
  lemma OutputColsContractOnce()
    ensures CpscOutputCols[0] == "Contract_ID" && Count(CpscOutputCols, CpscOutputCols[0]) == 1
  {
    OutputColsDistinct();
    DistinctCountOne(CpscOutputCols, 0);
  }

  /** Each canonical name is Enrollment, one of the filled names or one of the stamped names. */
  lemma OutputColsCovered()
    ensures forall l | l in CpscOutputCols ::
              l == EnrollmentCol || l in FillCols || l in ["Year", "Month", "Period", "Period_Label"]
  {
  }

  /** Names that must not clash for the later assignments to leave earlier columns alone. */
  lemma AssignedNamesDiffer()
    ensures EnrollmentCol !in FillCols
    ensures EnrollmentCol !in [SsaCodeCol, StateCol, "Year", "Month", "Period", "Period_Label"]
    ensures "Year" !in ["Month", "Period", "Period_Label"]
    ensures "Month" !in ["Period", "Period_Label"]
    ensures "Period" != "Period_Label"
  {
  }

  /** A successful clean leaves one Enrollment column and no label more often than before. */
  lemma CleanedCounts(t: Table, x: string)
    requires WellFormed(t) && CleanEnrollment(t).Ok?
    ensures Count(CleanEnrollment(t).value.cols, EnrollmentCol) == 1
    ensures x != EnrollmentCol ==> Count(CleanEnrollment(t).value.cols, x) <= Count(t.cols, x)
  {
    WithEnrollmentCount(t, x);
    var w := WithEnrollment(t);
    assert w.cols[IndexOf(w.cols, EnrollmentCol)] in multiset(w.cols);
  }

  /** Deriving State never makes a label repeat and never removes one. */
  lemma DeriveCounts(t: Table, x: string)
    requires WellFormed(t) && DeriveState(t).Ok?
    ensures Count(t.cols, x) <= 1 ==> Count(DeriveState(t).value.cols, x) <= 1
    ensures Count(t.cols, x) >= 1 ==> Count(DeriveState(t).value.cols, x) >= 1
  {
    if !(StateCol in t.cols || SsaCodeCol !in t.cols) {
      var j := IndexOf(t.cols, SsaCodeCol);
      var codes := seq(|t.rows|, i requires 0 <= i < |t.rows| => assert t.rows[i] in t.rows; Str(PaddedCode(t.rows[i][j])));
      var padded := SetColumn(t, SsaCodeCol, codes);
      SetColumnKeepsCounts(t, SsaCodeCol, codes, x);
      SetColumnKeepsCounts(padded, StateCol, seq(|t.rows|, i requires 0 <= i < |t.rows| => Str(codes[i].s[..2])), x);
    }
  }

  /** Deriving State leaves the other columns' cells alone. */
  lemma DeriveKeepsOther(t: Table, other: string, p: Cell -> bool)
    requires WellFormed(t) && DeriveState(t).Ok? && other != SsaCodeCol && other != StateCol
    requires ColumnHolds(t, other, p)
    ensures ColumnHolds(DeriveState(t).value, other, p)
  {
    if !(StateCol in t.cols || SsaCodeCol !in t.cols) {
      var j := IndexOf(t.cols, SsaCodeCol);
      var codes := seq(|t.rows|, i requires 0 <= i < |t.rows| => assert t.rows[i] in t.rows; Str(PaddedCode(t.rows[i][j])));
      var padded := SetColumn(t, SsaCodeCol, codes);
      SetColumnKeepsOther(t, SsaCodeCol, codes, other, p);
      SetColumnKeepsOther(padded, StateCol, seq(|t.rows|, i requires 0 <= i < |t.rows| => Str(codes[i].s[..2])), other, p);
    }
  }

  /** Stamping never makes a label repeat, never removes one, and leaves each period name present. */
  lemma StampCounts(t: Table, year: int, m: Month, x: string)
    requires WellFormed(t)
    ensures Count(t.cols, x) <= 1 ==> Count(Stamp(t, year, m).cols, x) <= 1
    ensures Count(t.cols, x) >= 1 || x in ["Year", "Month", "Period", "Period_Label"] ==> Count(Stamp(t, year, m).cols, x) >= 1
  {
    var t1 := SetConst(t, "Year", Int(year));
    var t2 := SetConst(t1, "Month", Int(m));
    var t3 := SetConst(t2, "Period", Date(year, m, 1));
    SetColumnKeepsCounts(t, "Year", ConstColumn(|t.rows|, Int(year)), x);
    SetColumnKeepsCounts(t1, "Month", ConstColumn(|t1.rows|, Int(m)), x);
    SetColumnKeepsCounts(t2, "Period", ConstColumn(|t2.rows|, Date(year, m, 1)), x);
    SetColumnKeepsCounts(t3, "Period_Label", ConstColumn(|t3.rows|, Str(PeriodLabel(year, m))), x);
    SetColumnKeepsCounts(t1, "Month", ConstColumn(|t1.rows|, Int(m)), "Year");
    SetColumnKeepsCounts(t2, "Period", ConstColumn(|t2.rows|, Date(year, m, 1)), "Year");
    SetColumnKeepsCounts(t2, "Period", ConstColumn(|t2.rows|, Date(year, m, 1)), "Month");
    SetColumnKeepsCounts(t3, "Period_Label", ConstColumn(|t3.rows|, Str(PeriodLabel(year, m))), "Year");
    SetColumnKeepsCounts(t3, "Period_Label", ConstColumn(|t3.rows|, Str(PeriodLabel(year, m))), "Month");
    SetColumnKeepsCounts(t3, "Period_Label", ConstColumn(|t3.rows|, Str(PeriodLabel(year, m))), "Period");
  }

  /** Stamping leaves the other columns' cells alone. */
  lemma StampKeepsOther(t: Table, year: int, m: Month, other: string, p: Cell -> bool)
    requires WellFormed(t) && other !in ["Year", "Month", "Period", "Period_Label"]
    requires ColumnHolds(t, other, p)
    ensures ColumnHolds(Stamp(t, year, m), other, p)
  {
    var t1 := SetConst(t, "Year", Int(year));
    var t2 := SetConst(t1, "Month", Int(m));
    var t3 := SetConst(t2, "Period", Date(year, m, 1));
    SetColumnKeepsOther(t, "Year", ConstColumn(|t.rows|, Int(year)), other, p);
    SetColumnKeepsOther(t1, "Month", ConstColumn(|t1.rows|, Int(m)), other, p);
    SetColumnKeepsOther(t2, "Period", ConstColumn(|t2.rows|, Date(year, m, 1)), other, p);
    SetColumnKeepsOther(t3, "Period_Label", ConstColumn(|t3.rows|, Str(PeriodLabel(year, m))), other, p);
  }

  /** The last three stamps leave the Year column alone. */
  lemma StampHoldsYear(t: Table, year: int, m: Month)
    requires WellFormed(t)
    ensures ColumnHolds(Stamp(t, year, m), "Year", Equals(Int(year)))
  {
    AssignedNamesDiffer();
    var t1 := SetConst(t, "Year", Int(year));
    var isYear := Equals(Int(year));
    SetColumnHolds(t, "Year", ConstColumn(|t.rows|, Int(year)), isYear);
    StampTail(t1, year, m, "Year", isYear);
  }

  /** The stamps after Year leave an earlier column alone. */
  lemma StampTail(t1: Table, year: int, m: Month, other: string, p: Cell -> bool)
    requires WellFormed(t1) && other !in ["Month", "Period", "Period_Label"] && ColumnHolds(t1, other, p)
    ensures var t2 := SetConst(t1, "Month", Int(m));
            var t3 := SetConst(t2, "Period", Date(year, m, 1));
            ColumnHolds(SetConst(t3, "Period_Label", Str(PeriodLabel(year, m))), other, p)
  {
    var t2 := SetConst(t1, "Month", Int(m));
    var t3 := SetConst(t2, "Period", Date(year, m, 1));
    SetColumnKeepsOther(t1, "Month", ConstColumn(|t1.rows|, Int(m)), other, p);
    SetColumnKeepsOther(t2, "Period", ConstColumn(|t2.rows|, Date(year, m, 1)), other, p);
    SetColumnKeepsOther(t3, "Period_Label", ConstColumn(|t3.rows|, Str(PeriodLabel(year, m))), other, p);
  }

  lemma StampHoldsMonth(t: Table, year: int, m: Month)
    requires WellFormed(t)
    ensures ColumnHolds(Stamp(t, year, m), "Month", Equals(Int(m)))
  {
    AssignedNamesDiffer();
    var t1 := SetConst(t, "Year", Int(year));
    var t2 := SetConst(t1, "Month", Int(m));
    var t3 := SetConst(t2, "Period", Date(year, m, 1));
    var isMonth := Equals(Int(m));
    SetColumnHolds(t1, "Month", ConstColumn(|t1.rows|, Int(m)), isMonth);
    SetColumnKeepsOther(t2, "Period", ConstColumn(|t2.rows|, Date(year, m, 1)), "Month", isMonth);
    SetColumnKeepsOther(t3, "Period_Label", ConstColumn(|t3.rows|, Str(PeriodLabel(year, m))), "Month", isMonth);
  }

  lemma StampHoldsPeriod(t: Table, year: int, m: Month)
    requires WellFormed(t)
    ensures ColumnHolds(Stamp(t, year, m), "Period", Equals(Date(year, m, 1)))
  {
    AssignedNamesDiffer();
    var t1 := SetConst(t, "Year", Int(year));
    var t2 := SetConst(t1, "Month", Int(m));
    var t3 := SetConst(t2, "Period", Date(year, m, 1));
    var isPeriod := Equals(Date(year, m, 1));
    SetColumnHolds(t2, "Period", ConstColumn(|t2.rows|, Date(year, m, 1)), isPeriod);
    SetColumnKeepsOther(t3, "Period_Label", ConstColumn(|t3.rows|, Str(PeriodLabel(year, m))), "Period", isPeriod);
  }

  lemma StampHoldsLabel(t: Table, year: int, m: Month)
    requires WellFormed(t)
    ensures ColumnHolds(Stamp(t, year, m), "Period_Label", Equals(Str(PeriodLabel(year, m))))
  {
    var t1 := SetConst(t, "Year", Int(year));
    var t2 := SetConst(t1, "Month", Int(m));
    var t3 := SetConst(t2, "Period", Date(year, m, 1));
    SetColumnHolds(t3, "Period_Label", ConstColumn(|t3.rows|, Str(PeriodLabel(year, m))), Equals(Str(PeriodLabel(year, m))));
  }

  /** Cleaning and deriving State both succeed; then, and only then, does `normalise_cpsc` return
      a frame (the remaining steps cannot fail). */
  predicate Normalisable(raw: Table)
    requires WellFormed(raw)
  {
    CleanEnrollment(Named(raw)).Ok? && DeriveState(CleanEnrollment(Named(raw)).value).Ok?
  }

  lemma NormalisableOk(raw: Table, year: int, m: Month)
    requires WellFormed(raw)
    ensures NormaliseCpsc(raw, year, m).Ok? <==> Normalisable(raw)
  {
  }

  function Cleaned(raw: Table): (t: Table)
    requires WellFormed(raw) && Normalisable(raw)
    ensures WellFormed(t)
  {
    CleanEnrollment(Named(raw)).value
  }

  function Derived(raw: Table): (t: Table)
    requires WellFormed(raw) && Normalisable(raw)
    ensures WellFormed(t)
  {
    DeriveState(Cleaned(raw)).value
  }

  /** The frame just before the final projection. */
  function Prepared(raw: Table, year: int, m: Month): (t: Table)
    requires WellFormed(raw) && Normalisable(raw)
    ensures WellFormed(t)
  {
    Stamp(FillMissing(Derived(raw), FillCols), year, m)
  }

  lemma NormaliseCpscIsSelect(raw: Table, year: int, m: Month)
    requires WellFormed(raw) && Normalisable(raw)
    ensures NormaliseCpsc(raw, year, m) == Ok(Select(Prepared(raw, year, m), PresentOutputCols(Prepared(raw, year, m))))
  {
  }

  /** After cleaning and deriving, each canonical name labels at most one column, and Enrollment
      exactly one. */
  lemma DerivedCounts(raw: Table, l: string)
    requires WellFormed(raw) && Normalisable(raw) && l in CpscOutputCols
    ensures Count(Derived(raw).cols, l) <= 1
    ensures l == EnrollmentCol ==> Count(Derived(raw).cols, l) == 1
  {
    OutputColsUntagged();
    NormalisedUntaggedOnce(raw.cols, CpscAliases, l);
    CleanedCounts(Named(raw), l);
    DeriveCounts(Cleaned(raw), l);
  }

  /** Each canonical name labels exactly one column of the prepared frame. */
  lemma PreparedCountOne(raw: Table, year: int, m: Month, l: string)
    requires WellFormed(raw) && Normalisable(raw) && l in CpscOutputCols
    ensures Count(Prepared(raw, year, m).cols, l) == 1
  {
    var derived := Derived(raw);
    OutputColsCovered();
    DerivedCounts(raw, l);
    FillMissingCounts(derived, FillCols, l);
    StampCounts(FillMissing(derived, FillCols), year, m, l);
  }

  /** Every Enrollment cell of the prepared frame is a positive integer. */
  lemma PreparedPositive(raw: Table, year: int, m: Month)
    requires WellFormed(raw) && Normalisable(raw)
    ensures ColumnHolds(Prepared(raw, year, m), EnrollmentCol, IsPositive)
  {
    var derived := Derived(raw);
    AssignedNamesDiffer();
    CleanEnrollmentKeeps(Named(raw));
    DeriveKeepsOther(Cleaned(raw), EnrollmentCol, IsPositive);
    FillMissingKeepsOther(derived, FillCols, EnrollmentCol, IsPositive);
    StampKeepsOther(FillMissing(derived, FillCols), year, m, EnrollmentCol, IsPositive);
  }

  /** The output is the prepared frame projected onto all twelve canonical names, each of which
      labels one column there. */
  lemma OutputIsProjection(raw: Table, year: int, m: Month)
    requires WellFormed(raw) && Normalisable(raw)
    ensures var t := Prepared(raw, year, m);
            && (forall l | l in CpscOutputCols :: Count(t.cols, l) == 1)
            && NormaliseCpsc(raw, year, m) == Ok(Select(t, CpscOutputCols))
  {
    var t := Prepared(raw, year, m);
    forall l | l in CpscOutputCols ensures Count(t.cols, l) == 1 {
      PreparedCountOne(raw, year, m, l);
    }
    forall l | l in CpscOutputCols ensures l in t.cols {
      assert l in multiset(t.cols);
    }
    KeepAll(CpscOutputCols, c => c in t.cols);
    NormaliseCpscIsSelect(raw, year, m);
  }

  /** `normalise_cpsc`'s promise: the columns are exactly `CPSC_OUTPUT_COLS`, in order and without
      repeats. */
  lemma NormaliseCpscColumns(raw: Table, year: int, m: Month)
    requires WellFormed(raw) && NormaliseCpsc(raw, year, m).Ok?
    ensures NormaliseCpsc(raw, year, m).value.cols == CpscOutputCols
    ensures NoDuplicates(NormaliseCpsc(raw, year, m).value.cols)
  {
    NormalisableOk(raw, year, m);
    OutputIsProjection(raw, year, m);
    SelectUnique(Prepared(raw, year, m), CpscOutputCols);
    OutputColsDistinct();
  }

  /** Projecting a frame whose canonical names each label one column gives rows of twelve cells,
      the `k`-th taken from the column named `CPSC_OUTPUT_COLS[k]`. */
  lemma ProjectedCell(t: Table, k: nat, p: Cell -> bool)
    requires WellFormed(t) && (forall l | l in CpscOutputCols :: Count(t.cols, l) == 1)
    requires k < 12 && ColumnHolds(t, CpscOutputCols[k], p)
    ensures var r := Select(t, CpscOutputCols);
            forall i :: 0 <= i < |r.rows| ==> |r.rows[i]| == 12 && p(r.rows[i][k])
  {
    var r := Select(t, CpscOutputCols);
    SelectUnique(t, CpscOutputCols);
    forall i | 0 <= i < |r.rows| ensures |r.rows[i]| == 12 {
      assert r.rows[i] in r.rows;
    }
    SelectHolds(t, CpscOutputCols, k, p);
  }

  /** A positive Enrollment column lands at position 7 of every projected row. */
  lemma ProjectedPositive(t: Table)
    requires WellFormed(t) && forall l | l in CpscOutputCols :: Count(t.cols, l) == 1
    requires ColumnHolds(t, EnrollmentCol, IsPositive)
    ensures var r := Select(t, CpscOutputCols);
            forall i :: 0 <= i < |r.rows| ==> |r.rows[i]| == 12 && IsPositive(r.rows[i][7])
  {
    assert CpscOutputCols[7] == EnrollmentCol;
    ProjectedCell(t, 7, IsPositive);
  }

  /** The period stamps land at positions 8 to 11 of every projected row. */
  lemma ProjectedStamps(t: Table, year: int, m: Month)
    requires WellFormed(t) && forall l | l in CpscOutputCols :: Count(t.cols, l) == 1
    requires ColumnHolds(t, "Year", Equals(Int(year))) && ColumnHolds(t, "Month", Equals(Int(m)))
    requires ColumnHolds(t, "Period", Equals(Date(year, m, 1)))
    requires ColumnHolds(t, "Period_Label", Equals(Str(PeriodLabel(year, m))))
    ensures var r := Select(t, CpscOutputCols);
            forall i :: 0 <= i < |r.rows| ==>
              && |r.rows[i]| == 12
              && r.rows[i][8] == Int(year) && r.rows[i][9] == Int(m)
              && r.rows[i][10] == Date(year, m, 1) && r.rows[i][11] == Str(PeriodLabel(year, m))
  {
    assert CpscOutputCols[8] == "Year" && CpscOutputCols[9] == "Month";
    assert CpscOutputCols[10] == "Period" && CpscOutputCols[11] == "Period_Label";
    ProjectedCell(t, 8, Equals(Int(year)));
    ProjectedCell(t, 9, Equals(Int(m)));
    ProjectedCell(t, 10, Equals(Date(year, m, 1)));
    ProjectedCell(t, 11, Equals(Str(PeriodLabel(year, m))));
  }

  /** Every row of the prepared frame carries the period stamps. */
  lemma PreparedStamped(raw: Table, year: int, m: Month)
    requires WellFormed(raw) && Normalisable(raw)
    ensures var t := Prepared(raw, year, m);
            && ColumnHolds(t, "Year", Equals(Int(year))) && ColumnHolds(t, "Month", Equals(Int(m)))
            && ColumnHolds(t, "Period", Equals(Date(year, m, 1)))
            && ColumnHolds(t, "Period_Label", Equals(Str(PeriodLabel(year, m))))
  {
    var filled := FillMissing(Derived(raw), FillCols);
    StampHoldsYear(filled, year, m);
    StampHoldsMonth(filled, year, m);
    StampHoldsPeriod(filled, year, m);
    StampHoldsLabel(filled, year, m);
  }

  /** Every output row has twelve cells and a positive Enrollment, at position 7. */
  lemma NormaliseCpscPositive(raw: Table, year: int, m: Month)
    requires WellFormed(raw) && NormaliseCpsc(raw, year, m).Ok?
    ensures var r := NormaliseCpsc(raw, year, m).value;
            forall i :: 0 <= i < |r.rows| ==> |r.rows[i]| == 12 && IsPositive(r.rows[i][7])
  {
    NormalisableOk(raw, year, m);
    var t := Prepared(raw, year, m);
    OutputIsProjection(raw, year, m);
    PreparedPositive(raw, year, m);
    ProjectedPositive(t);
  }

  /** Every output row carries the period it was normalised for: Year, Month, the first of the
      month, and the label such as "Mar 2024". */
  lemma NormaliseCpscStamped(raw: Table, year: int, m: Month)
    requires WellFormed(raw) && NormaliseCpsc(raw, year, m).Ok?
    ensures var r := NormaliseCpsc(raw, year, m).value;
            forall i :: 0 <= i < |r.rows| ==>
              && |r.rows[i]| == 12
              && r.rows[i][8] == Int(year) && r.rows[i][9] == Int(m)
              && r.rows[i][10] == Date(year, m, 1) && r.rows[i][11] == Str(PeriodLabel(year, m))
  {
    NormalisableOk(raw, year, m);
    var t := Prepared(raw, year, m);
    OutputIsProjection(raw, year, m);
    PreparedStamped(raw, year, m);
    ProjectedStamps(t, year, m);
  }
}
