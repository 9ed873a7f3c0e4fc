# CMS Medicare Advantage enrollment ingestion, modelled in Dafny

`app.py` is a dashboard of Medicare Advantage enrollment. Its ingestion core is modelled here.
Monthly CPSC enrollment extracts and the plan directory arrive with headers that change from one
vintage to the next. The core turns them into one enrollment table with canonical, duplicate-free
columns, each row tagged with its period and its parent organisation, and then filters that table
by the sidebar's selections.

A DataFrame is a `Table`: an ordered list of column labels and a list of rows of `Cell`s (text, an
integer or a date). A frame that the source changes in place is a `Frame` object whose `Assign`
method is `df[name] = values`. Modules, one file each:

- `Strings`: Python's `strip`, ASCII `lower`, `replace`, `zfill`, `str(int)`, integer parsing and
  string order.
- `Tables`: cells, tables, `df[labels]`, column assignment, row filtering, `drop_duplicates`, and
  the `Frame` class.
- `Calendar`: `MONTH_NAMES`, the `Mon YYYY` period label, `rolling_months`.
- `Sources`: the download URLs, pre-fetched file lookup, `_pick_file`, `_detect_skiprows`,
  `_load_one_cpsc`'s fallback order.
- `Columns`: `_dedup_columns` and `_normalise_cols`.
- `Aliases`, `AliasExamples`: the two alias maps, and what normalising concrete header rows gives.
- `Cleansing`: `_clean_enrollment`, `CPSC_OUTPUT_COLS`, `normalise_cpsc`.
- `Window`: `load_enrollment`.
- `Reference`: `normalise_plandir` and `add_parent_org`.
- `Filters`: `apply_filters`.

Where the source loops or assigns step by step, a method does the same, with loop invariants
where the source loops, and its `ensures` ties it to a specification function. These are `NumberLabels`, `DedupColumns`,
`BuildRename`, `NormaliseColumns`, `CleanEnrollmentSteps`, `NormaliseCpscSteps`, `PickFile`,
`DetectSkipRows`, `LocalCpscPath`, `CollectSteps`, `AlignFrames`, `LoadEnrollmentSteps` and
`AddParentOrgTo`. The lemmas then state the source's promises about those functions.

Two properties do not hold for the code as written: the unique index that `_normalise_cols`'s
docstring promises (app.py:333-335), and idempotence of normalising. The model follows the code
and proves both counterexamples:

- Normalised labels are not always unique. A raw label that already ends in `_2` collides with the
  label the final pass makes (`AliasExamples.CountySsa`: `County_SSA`, `ssa_county_code` and
  `County_SSA_2` normalise to `County_SSA`, `County_SSA_2`, `County_SSA_2`). Uniqueness is proved
  under the precondition that no raw label ends in `_<digits>` (`Columns.NormalisedDistinct`).
  For any header, every label not ending in `_<digits>` occurs at most once
  (`Columns.NormalisedUntaggedOnce`). Since `normalise_cpsc` keeps only such labels, the
  repeated-label check in `load_enrollment` (app.py:479-480) never rejects a month
  (`Window.AcceptSpec`).
- Normalising twice is not the same as normalising once. The enrollment alias map sends
  `contract_number` and `h_number` to `Contract_ID` but has no key `contract_id`. A second pass
  therefore renames the column that lost the first time (`AliasExamples.ContractNumberTwice`).

## Model

| member | source | states |
|---|---|---|
| Strings.Trim | app.py:313 | `strip()`: the result has no surrounding whitespace and is no longer than the input |
| Strings.TrimLeft | app.py:313 | only whitespace is removed from the front, and the result then starts with a non-space |
| Strings.TrimRight | app.py:313 | only whitespace is removed from the end, and the result then ends with a non-space |
| Strings.TrimIdempotent | app.py:343 | stripping an already stripped label changes nothing |
| Strings.TrimNoop | app.py:313 | a label without surrounding whitespace is left alone |
| Strings.TrimPadded | app.py:388 | `strip()` removes exactly the whitespace put around a text that has none at its ends |
| Strings.TrimLacks | app.py:388 | `strip()` introduces no character its input lacks |
| Strings.TrimLower | app.py:343 | lower-casing a stripped label leaves it stripped |
| Strings.Lower | app.py:343 | `lower()` maps every character through the ASCII lower-case map and keeps the length |
| Strings.LowerNoop | app.py:343 | a label without upper-case letters is its own lower-case form |
| Strings.LowerIdempotent | app.py:343 | lower-casing twice is lower-casing once |
| Strings.RemoveChar | app.py:386 | `replace(",", "")`: no comma is left and every other character keeps its multiplicity |
| Strings.ReplaceChar | app.py:387 | `replace("*", "0")`: every `*` becomes `0` and every other character stays in place |
| Strings.RemoveCharAbsent | app.py:386 | removing a character the text lacks changes nothing |
| Strings.RemoveCharAppend | app.py:386 | removing commas from joined text removes them from each part |
| Strings.ReplaceCharAbsent | app.py:387 | replacing a character the text lacks changes nothing |
| Strings.NatToString | app.py:321 | `str(n)` of a natural number is a non-empty run of digits |
| Strings.DigitsOfNat | app.py:321 | reading the digits of `str(n)` gives back `n` |
| Strings.NatToStringInjective | app.py:321 | different counters give different suffixes |
| Strings.IntToString | app.py:172 | `str(n)` is non-empty and starts with a minus exactly when `n` is negative; `ParseIntToString` reads it back and `IntToStringInjective` shows different numbers render differently |
| Strings.ParseInt | app.py:391 | a successful parse has text ending in a digit, and a negative value has a leading minus; `ParseIntToString` shows it undoes `str` |
| Strings.ParseIntToString | app.py:391 | `to_numeric` reads back every integer that `str` renders |
| Strings.IntToStringChars | app.py:410 | `str(n)` is decimal digits, with at most a leading minus, and ends in a digit |
| Strings.IntToStringInjective | app.py:422 | different years render differently |
| Strings.ZFill | app.py:410 | `zfill(w)` gives text of length at least `w`: longer text is kept, unsigned shorter text gets zeros in front, and signed shorter text keeps its sign first with the zeros after it |
| Strings.TrailingDigits | app.py:347 | the count of digits a label ends with, with a non-digit just before them |
| Strings.TaggedHasTag | app.py:321 | `label + sep + str(k)` carries a numeric tag |
| Strings.TaggedLacksOtherTag | app.py:367 | a `_dup<k>` label is not a `_<k>` label of the final pass |
| Strings.TagInjective | app.py:321 | the label and the number can be read back from `label + sep + digits` |
| Strings.LexLessIrreflexive | app.py:200 | Python's string order is irreflexive |
| Strings.LexLessTransitive | app.py:200 | Python's string order is transitive |
| Strings.LexLessTotal | app.py:200 | Python's string order is total on different strings |
| Calendar.Title | app.py:422 | `title()` on a month name keeps its length |
| Calendar.Abbrev | app.py:422 | `MONTH_NAMES[m].title()[:3]` has three characters |
| Calendar.AbbrevLetters | app.py:422 | the abbreviation is the capitalised first letter and the next two letters of the name |
| Calendar.AbbrevRoundTrip | app.py:80-83 | the month can be read back from its abbreviation |
| Calendar.AbbrevInjective | app.py:80-83 | the twelve abbreviations differ |
| Calendar.PeriodLabel | app.py:422 | `Period_Label` is the abbreviation, one space, then `str(year)` |
| Calendar.PeriodLabelExample | app.py:422 | March 2024 is labelled `Mar 2024` |
| Calendar.PeriodLabelInjective | app.py:422 | different periods get different labels |
| Calendar.FromIndex | app.py:183-185 | month arithmetic: the month with a given count of months since year 0 |
| Calendar.MonthIndexInjective | app.py:183-185 | that count identifies the month |
| Calendar.PrevMonth | app.py:184 | `- relativedelta(months=1)` is exactly one month earlier |
| Calendar.RollingMonths | app.py:181-186 | `rolling_months(n)` has `n` entries |
| Calendar.RollingMonthsSpec | app.py:181-186 | the window starts two months before today's month, each entry is one month before the previous, and no month repeats |
| Sources.MonthNameNoDash | app.py:80-83 | no month name holds a dash |
| Sources.MonthNameInjective | app.py:80-83 | the month names differ |
| Sources.ArchiveTailInjective | app.py:169-179 | the `<month>-<year>.zip` part of an address identifies the period |
| Sources.CpscUrlInjective | app.py:169-173 | different periods are downloaded from different enrollment addresses |
| Sources.PlandirUrlInjective | app.py:175-179 | different periods are downloaded from different plan-directory addresses |
| Sources.CpscUrl | app.py:169-173 | the enrollment address is a `.zip` under `https://www.cms.gov/files/zip/monthly-enrollment-cpsc-`; `CpscUrlInjective` shows each period has its own |
| Sources.PlandirUrl | app.py:175-179 | the plan-directory address is a `.zip` under `https://www.cms.gov/files/zip/plan-directory-`; `PlandirUrlInjective` shows each period has its own |
| Sources.CpscCandidates | app.py:190-191 | one candidate name per extension, in the order tried |
| Sources.LocalCpsc | app.py:188-194 | a path found exists and is one of the period's candidate names; `LocalCpscSpec` adds that it is the first existing one in extension order |
| Sources.LocalCpscSpec | app.py:188-194 | the path found exists and is the first of `.csv`, `.xlsx`, `.xls` that does; there is none only when no candidate exists |
| Sources.LocalCpscPath | app.py:188-194 | the early-return loop finds what `LocalCpsc` specifies |
| Sources.GreatestPlandirFileSpec | app.py:196-203 | the name found is an accepted `plan-directory*` table file of the listing and no accepted name sorts after it; none only when no name is accepted |
| Sources.LocalPlandir | app.py:196-203 | no directory gives nothing; otherwise the result is an accepted `plan-directory*` table file of the listing that no accepted name sorts after, and there is none only when no name is accepted |
| Sources.FirstMatch | app.py:231-244 | a tier's pick is the first name of the list that passes the tier; none only when no name passes |
| Sources.PickedSpec | app.py:229-245 | the pick is a member of the archive from the highest tier that has one (hint, then visible CSV, then visible workbook); none only when no name qualifies |
| Sources.Picked | app.py:229-245 | the pick is a member of the archive with a `.csv`, `.xlsx` or `.xls` extension; `PickedSpec` adds the tier order |
| Sources.HintTierTakesJunk | app.py:231-234 | the hint tier does not skip `__MACOSX` or dot entries |
| Sources.PickFile | app.py:229-245 | the three early-return passes pick what `Picked` specifies |
| Sources.ScanFirst | app.py:235-239 | one pass stops at the position of the first name passing the tier's test, or at the end when none does |
| Sources.SkipRowsSpec | app.py:281-292 | the skip count is below five; a positive count is the first header-like line; zero means the first line is header-like or none of the first five is |
| Sources.SkipRows | app.py:281-292 | the skip count is below five; `SkipRowsSpec` states which line it points at |
| Sources.DetectSkipRows | app.py:281-292 | the scan over the first five lines returns what `SkipRows` specifies |
| Sources.LoadOne | app.py:444-457 | the result is the live download unless the pre-fetched file exists and its frame has more than ten rows, and then it is that frame; the month has a frame of more than ten rows exactly when the usable local frame or the live download has one |
| Columns.Occurrence | app.py:318-324 | every label's occurrence number is at least 1 |
| Columns.Numbered | app.py:316-324 | the numbering pass keeps the length and labels each position as `NumberedAt` says |
| Columns.TallyCount | app.py:316-324 | the `seen` dictionary holds each scanned label with its number of occurrences so far |
| Columns.NumberStep | app.py:318-324 | one loop turn updates `seen` and emits `c` or `c + sep + str(seen[c] + 1)` |
| Columns.NumberLabels | app.py:316-324 | the loop over `seen` produces the numbering pass |
| Columns.OccurrenceGrows | app.py:318-324 | a later repeat of a label gets a larger number |
| Columns.NumberedOfDistinct | app.py:361 | distinct labels come back unchanged |
| Columns.NumberedAtDistinct | app.py:318-324 | two positions never get the same label when no input label carries a tag |
| Columns.NumberedDistinct | app.py:316-327 | the numbering pass yields distinct labels when no input label already carries a tag |
| Columns.NumberedUntaggedOnce | app.py:362-371 | a label without a tag survives numbering at most once |
| Columns.TrimAll | app.py:313 | every label is stripped, in place |
| Columns.Dedup | app.py:299-328 | de-duplication keeps the number of labels |
| Columns.DedupColumns | app.py:299-328 | same length; the first occurrence of each stripped label keeps it; its k-th occurrence becomes `label_dupk` |
| Columns.DedupDistinct | app.py:299-328 | after de-duplication the labels are distinct, unless a raw label already ends in `_dup<n>` |
| Columns.StripDupTagOfDuplicate | app.py:344-349 | a `_dup2`..`_dup9` repeat is looked up under the key of the label it repeats |
| Columns.StripDupTagKeepsLongTags | app.py:346-349 | a tenth or later repeat keeps its suffix for the lookup |
| Columns.StripDupFromNoop | app.py:346-349 | a key that cannot end in `_dup<digit>` is looked up unchanged |
| Columns.Target | app.py:343-350 | a label resolves to a name of the alias map, or to nothing |
| Columns.TargetCaseInsensitive | app.py:333 | labels that agree once stripped and lower-cased resolve to the same name |
| Columns.TargetOfKey | app.py:343-350 | a label resolves exactly as its stripped, lower-cased key does |
| Columns.Targets | app.py:342-350 | one resolved name per column |
| Columns.TargetsAt | app.py:342-350 | position `i` holds the name column `i` resolves to |
| Columns.RenameUpToKeys | app.py:339-356 | the rename dictionary holds exactly the labels of winning columns |
| Columns.RenameUpToValues | app.py:339-356 | each label in the dictionary maps to its resolved name |
| Columns.RenameUpToSpec | app.py:339-356 | both of the above for every label |
| Columns.WinnerStep | app.py:351-354 | a column wins exactly when it resolves to a name no earlier column claimed |
| Columns.RenameLoopStep | app.py:342-354 | one loop turn adds `c -> target` and claims `target` exactly when the target is new |
| Columns.BuildRename | app.py:339-356 | the loop builds the rename dictionary and `target_seen` as specified |
| Columns.ApplyRename | app.py:358 | a column is renamed exactly when its label is a key of the dictionary |
| Columns.FirstWriterWins | app.py:351-356 | on distinct labels, a column is renamed exactly when it is the first to resolve to its name |
| Columns.WinnersClaimDistinctNames | app.py:351-354 | no two columns are renamed to the same name |
| Columns.FinalPass | app.py:360-371 | the final pass keeps the number of labels |
| Columns.FinalPassIsNumbering | app.py:360-371 | the `duplicated().any()` guard only saves work: the pass is the `_N` numbering |
| Columns.FinalPassUntaggedOnce | app.py:360-371 | after the final pass a label not ending in `_<digits>` names at most one column |
| Columns.NormaliseCols | app.py:331-373 | normalising keeps the number of labels |
| Columns.NormaliseColumns | app.py:331-373 | the step-by-step procedure yields `NormaliseCols` |
| Columns.RenamedUntagged | app.py:337-358 | untagged raw labels and canonical names give untagged labels after renaming |
| Columns.NormalisedDistinct | app.py:333-335 | the docstring's promise of a unique index, under the precondition that no raw label or canonical name ends in `_<digits>` |
| Columns.NormalisedUntaggedOnce | app.py:331-373 | for any input, every canonical name labels at most one column |
| Columns.DuplicateSurvives | app.py:360-371 | a raw `x_2` beside a column renamed to `x` leaves a duplicate after the final pass |
| Columns.NormaliseOnce | app.py:339-358 | two columns resolving to the same name: the first takes it, the second keeps its label |
| Columns.NormaliseAgain | app.py:339-371 | when the name itself is not a key, a second pass renames the other column as well and the final pass numbers it `_2` |
| Columns.NormaliseTwice | app.py:331-373 | in that situation normalising twice differs from normalising once |
| Aliases.CpscTargetsUntagged | app.py:87-131 | no canonical name of the enrollment aliases ends in `_<digits>` |
| Aliases.PlandirTargetsUntagged | app.py:134-150 | no canonical name of the plan-directory aliases ends in `_<digits>` |
| AliasExamples.TargetSsaCountyCode | app.py:116 | `ssa_county_code` resolves to `County_SSA` |
| AliasExamples.TargetCountySsa | app.py:87-131 | `County_SSA` itself resolves to nothing |
| AliasExamples.CountySsa | app.py:331-373 | `County_SSA`, `ssa_county_code`, `County_SSA_2` normalise to `County_SSA`, `County_SSA_2`, `County_SSA_2`, which repeats |
| AliasExamples.TargetContractNumber | app.py:89 | `contract_number` resolves to `Contract_ID` |
| AliasExamples.TargetHNumber | app.py:91 | `h_number` resolves to `Contract_ID` |
| AliasExamples.TargetContractId | app.py:87-131 | `Contract_ID` itself resolves to nothing through the enrollment aliases |
| AliasExamples.ContractNumberTwice | app.py:331-373 | `contract_number`, `h_number` normalise to `Contract_ID`, `h_number`, and normalising again gives `Contract_ID`, `Contract_ID_2` |
| Tables.Select | app.py:427 | `df[labels]` keeps the rows and gives a rectangular frame |
| Tables.SelectUnique | app.py:426-427 | when each requested label names one column, the result has exactly the requested labels |
| Tables.SelectAt | app.py:426-427 | column `k` of the result is the column carrying `labels[k]` |
| Tables.SelectOwnColumns | app.py:501 | selecting a frame's own distinct labels gives the frame back |
| Tables.SetColumn | app.py:417 | `df[name] = values` overwrites the column named `name`, or appends it; every other cell stays |
| Tables.SetConst | app.py:419-422 | `df[name] = v` keeps the rows, and `name` is overwritten in place or appended at the end |
| Tables.SetColumnCounts | app.py:417 | assignment changes no other label's multiplicity and leaves `name` present |
| Tables.SetColumnKeepsOther | app.py:417 | assignment leaves every other column's cells alone |
| Tables.SetColumnHolds | app.py:417 | after assignment the column holds exactly what the values satisfy |
| Tables.SetColumnAppends | app.py:417 | appending a new column leaves each row's old cells as a prefix |
| Tables.SelectAfterSet | app.py:410-427 | projecting after an assignment reads the assigned value under `name` and the old cell elsewhere |
| Tables.Keep | app.py:393 | a boolean mask keeps only rows that pass, and only rows of the input |
| Tables.KeepIsSubsequence | app.py:393 | the kept rows are in their original order |
| Tables.KeepComplete | app.py:393 | no passing row is lost |
| Tables.KeepAll | app.py:849-855 | a mask every row passes keeps the frame as it is |
| Tables.KeepKeep | app.py:849-855 | two masks in a row are one mask of their conjunction |
| Tables.KeepTwice | app.py:847-856 | applying a mask twice is applying it once |
| Tables.DropDuplicateKeys | app.py:438 | `drop_duplicates(key)` keeps only input rows and never adds rows |
| Tables.DropDuplicateKeysUnique | app.py:438 | no two kept rows share a key |
| Tables.DropDuplicateKeysKeys | app.py:438 | a key is among the kept rows exactly when it is among the input rows |
| Tables.DropDuplicateKeysFirst | app.py:438 | each kept row is the first input row with its key |
| Tables.DropDuplicateKeysLookup | app.py:438 | looking a key up after `drop_duplicates` finds what looking it up first in the input finds |
| Tables.Frame.Assign | app.py:606 | `df[name] = values` in place: the frame's new contents are the assignment's result |
| Cleansing.EnrollmentText | app.py:384-389 | the rewritten text holds no comma and no `*`, and has no surrounding whitespace |
| Cleansing.EnrollmentValue | app.py:390-392 | a non-zero value is the parse of the rewritten text; `EnrollmentOfInt` and `EnrollmentOfPadded` say which texts read as which numbers |
| Cleansing.EnrollmentOfInt | app.py:384-392 | an integer cell keeps its value, and the text `str(n)` reads as `n` |
| Cleansing.EnrollmentOfPadded | app.py:384-392 | any text that is `str(n)` with commas inserted anywhere and whitespace around it reads as `n` |
| Cleansing.EnrollmentWithComma | app.py:386 | `"1,234"` reads as 1234 |
| Cleansing.EnrollmentMasked | app.py:387 | `"*"` reads as 0 |
| Cleansing.EnrollmentNotANumber | app.py:391 | `"abc"` reads as 0 |
| Cleansing.EnrollmentStarInside | app.py:387 | every `*` is replaced, so `"1*"` reads as 10 |
| Cleansing.WithEnrollment | app.py:378-383 | the first step keeps the rows and the frame rectangular |
| Cleansing.WithEnrollmentSpec | app.py:378-383 | an existing Enrollment is kept; else the first label mentioning "enroll" is renamed; else a column of zeros is appended |
| Cleansing.WithEnrollmentCount | app.py:378-383 | afterwards Enrollment is present, and no other label becomes more frequent |
| Cleansing.RenameOneCount | app.py:381 | renaming `a` to `b` changes only the multiplicities of `a` and `b` |
| Cleansing.ParsedRow | app.py:384-392 | only the Enrollment cell changes, to its parsed integer |
| Cleansing.ParsedRows | app.py:384-392 | every row is parsed, and none is added or lost |
| Cleansing.ParsedValues | app.py:384-392 | one parsed value per row |
| Cleansing.SetUniqueColumn | app.py:384-392 | assigning the only Enrollment column rewrites its cell in every row and nothing else |
| Cleansing.CleanEnrollment | app.py:376-393 | a successful clean gives a rectangular frame with no more rows than the input; the only failure is a repeated `Enrollment` label |
| Cleansing.KeepPositive | app.py:393 | the `> 0` mask never fails and keeps the labels |
| Cleansing.CleanEnrollmentFails | app.py:376-393 | the clean fails exactly when the Enrollment label (or the renamed one) names several columns |
| Cleansing.CleanEnrollmentRows | app.py:376-393 | the output is the parsed input rows with Enrollment > 0, in order |
| Cleansing.CleanEnrollmentKeeps | app.py:393 | every kept Enrollment is positive; kept rows are an ordered subsequence of the parsed rows; no positive row is lost |
| Cleansing.ParsedRowOfPositive | app.py:384-392 | a row whose Enrollment is already a positive integer is unchanged |
| Cleansing.CleanEnrollmentIdempotent | app.py:376-393 | cleaning a cleaned frame changes nothing |
| Cleansing.CleanEnrollmentSteps | app.py:376-393 | the in-place steps produce `CleanEnrollment` |
| Cleansing.PaddedCode | app.py:410 | a padded SSA code has at least five characters |
| Cleansing.SetUniqueCode | app.py:410 | assigning the only SSA_Code column rewrites its cell in every row and nothing else |
| Cleansing.DeriveState | app.py:408-411 | deriving State keeps the rows and the frame rectangular; the only failure is a repeated `SSA_Code` label |
| Cleansing.DeriveStateSpec | app.py:408-411 | State is derived only when missing and SSA_Code exists; it fails exactly when SSA_Code repeats; otherwise SSA_Code is zero-padded and State is its first two characters |
| Cleansing.FillOne | app.py:416-417 | a missing label is appended; a present one is left alone |
| Cleansing.FillOneRows | app.py:417 | an added column holds `""` in every row |
| Cleansing.FillMissing | app.py:414-417 | the guarantee loop only adds columns and keeps the rows |
| Cleansing.FillMissingCols | app.py:414-417 | existing labels stay in place |
| Cleansing.FillMissingRows | app.py:414-417 | existing cells stay in place |
| Cleansing.FillMissingCell | app.py:414-417 | a listed label that occurred at most once is present afterwards, and its cell is the old cell or `""` |
| Cleansing.FillMissingCounts | app.py:414-417 | filling never makes a label repeat and makes every listed label present |
| Cleansing.FillMissingKeepsOther | app.py:414-417 | filling leaves an existing or unlisted column alone |
| Cleansing.FillMissingBlank | app.py:417 | a listed column that was missing holds `""` in every row |
| Cleansing.Stamp | app.py:419-422 | stamping keeps the rows and the frame rectangular |
| Cleansing.StampCounts | app.py:419-422 | stamping never makes a label repeat and leaves all four period names present |
| Cleansing.StampKeepsOther | app.py:419-422 | stamping leaves every other column alone |
| Cleansing.StampHoldsYear | app.py:419 | every row's Year is the year argument |
| Cleansing.StampHoldsMonth | app.py:420 | every row's Month is the month argument |
| Cleansing.StampHoldsPeriod | app.py:421 | every row's Period is the first of that month |
| Cleansing.StampHoldsLabel | app.py:422 | every row's Period_Label is `PeriodLabel(year, month)` |
| Cleansing.Named | app.py:405 | renaming the labels keeps the rows |
| Cleansing.Finish | app.py:408-427 | the steps after cleaning keep the row count |
| Cleansing.DeriveStateInPlace | app.py:408-411 | on a frame in place, the new contents are `DeriveState`'s result; `false` exactly on its error |
| Cleansing.FillMissingInPlace | app.py:414-417 | on a frame in place, the new contents are `FillMissing`'s result |
| Cleansing.FillOneInPlace | app.py:416-417 | one turn on a frame in place: the new contents are `FillOne`'s result |
| Cleansing.StampInPlace | app.py:419-422 | on a frame in place, the new contents are `Stamp`'s result |
| Cleansing.FinishSteps | app.py:408-427 | the in-place steps produce `Finish` |
| Cleansing.NormaliseCpscSteps | app.py:404-427 | the in-place steps produce `NormaliseCpsc` |
| Cleansing.OutputColsUntagged | app.py:397-401 | no canonical output name ends in `_<digits>` |
| Cleansing.OutputColsDistinct | app.py:397-401 | the twelve output names are distinct |
| Cleansing.OutputColsCovered | app.py:397-422 | each output name is Enrollment, a filled name or a stamped name |
| Cleansing.OutputColsLackParent | app.py:397-401 | `Parent_Org` is not an output column, so `add_parent_org` adds it |
| Cleansing.OutputColsContractOnce | app.py:397-401 | `Contract_ID` is the first output column and occurs once |
| Cleansing.AssignedNamesDiffer | app.py:378-422 | the labels the steps assign (Enrollment, State, the four period names) differ from each other and from the filled names |
| Cleansing.CleanedCounts | app.py:376-393 | after a clean, Enrollment labels one column and no label is more frequent than before |
| Cleansing.DeriveCounts | app.py:408-411 | deriving State never makes a label repeat or disappear |
| Cleansing.DeriveKeepsOther | app.py:408-411 | deriving State leaves every other column alone |
| Cleansing.NormalisableOk | app.py:404-427 | `normalise_cpsc` succeeds exactly when cleaning and deriving both succeed |
| Cleansing.NormaliseCpscIsSelect | app.py:426-427 | the result is the prepared frame projected onto the output names present |
| Cleansing.NormaliseCpsc | app.py:404-427 | a normalised frame is rectangular with no more rows than the raw one; it fails only on a repeated `Enrollment` or `SSA_Code` label; `NormaliseCpscColumns`, `NormaliseCpscPositive` and `NormaliseCpscStamped` state its columns and rows |
| Cleansing.DerivedCounts | app.py:405-411 | after cleaning and deriving, each output name labels at most one column, and Enrollment exactly one |
| Cleansing.PreparedCountOne | app.py:413-422 | before projection each output name labels exactly one column |
| Cleansing.PreparedPositive | app.py:393 | every Enrollment cell before projection is positive |
| Cleansing.OutputIsProjection | app.py:424-427 | the result is the prepared frame projected onto all twelve output names |
| Cleansing.NormaliseCpscColumns | app.py:424-427 | the output columns are exactly `CPSC_OUTPUT_COLS`, in order, without repeats |
| Cleansing.ProjectedPositive | app.py:427 | a positive Enrollment column lands at position 7 of every projected row |
| Cleansing.ProjectedStamps | app.py:427 | the period stamps land at positions 8 to 11 |
| Cleansing.ProjectedCell | app.py:427 | a column property of the prepared frame holds at its output position in every projected row |
| Cleansing.PreparedStamped | app.py:419-422 | every prepared row carries the period stamps |
| Cleansing.NormaliseCpscPositive | app.py:393 | every output row has twelve cells and a positive Enrollment |
| Cleansing.NormaliseCpscStamped | app.py:419-422 | every output row carries Year, Month, the first of the month and the `Mon YYYY` label of its period |
| Window.Raw | app.py:474 | a loaded frame is rectangular |
| Window.Accept | app.py:476-487 | an accepted frame is rectangular and has no repeated label |
| Window.AcceptSpec | app.py:476-487 | a month is kept exactly when its raw frame has more than ten rows and normalising succeeds, and it is then the normalised frame, so the repeated-label check never rejects a frame |
| Window.OutcomeOf | app.py:473-487 | a month's outcome is sound |
| Window.Step | app.py:481-485 | the list of frames grows by exactly as much as the two counters together |
| Window.Tally | app.py:467-487 | the number of frames equals `local_count + live_count` |
| Window.TallySnoc | app.py:467-487 | one more outcome is one more bookkeeping step |
| Window.MonthOutcomes | app.py:467-487 | one sound outcome per month |
| Window.Collect | app.py:467-487 | every collected frame is rectangular |
| Window.CollectSnoc | app.py:467-487 | one more month extends the bookkeeping by that month's outcome |
| Window.CollectMonth | app.py:476-487 | a skipped month changes nothing; a kept one appends its frame and raises one counter |
| Window.LiveFrameCountedAsLocal | app.py:473-485 | a live frame fetched after an unusable local file is counted as local |
| Window.AlignOne | app.py:499-500 | one alignment turn keeps the rows and the frame rectangular |
| Window.AlignFill | app.py:498-500 | the alignment loop keeps the rows and the frame rectangular |
| Window.Align | app.py:497-501 | an aligned frame keeps its rows |
| Window.AlignAll | app.py:496-501 | one aligned frame per accepted frame |
| Window.AlignFillCounts | app.py:498-500 | alignment never makes a label repeat and leaves every listed label present |
| Window.AlignFillPrefix | app.py:498-500 | alignment only appends: existing labels and cells stay in place |
| Window.AlignFillDefault | app.py:500 | a missing label is filled with 0 for Enrollment and `""` otherwise |
| Window.AlignFillKeepsOther | app.py:498-500 | alignment leaves existing and unlisted columns alone |
| Window.AlignColumns | app.py:496-501 | an aligned frame has exactly the canonical labels, in order |
| Window.AlignFillsMissing | app.py:500-501 | a requested label the frame lacks holds its default in every aligned row |
| Window.AlignKeepsPresent | app.py:501 | a requested label the frame has keeps its cells |
| Window.AlignNoop | app.py:496-501 | aligning a frame that already has the canonical labels changes nothing |
| Window.AlignFillPresent | app.py:498-500 | the alignment loop leaves a frame that already has every listed label unchanged |
| Window.AcceptCanonical | app.py:476-481 | every kept frame has the canonical labels and canonical rows |
| Window.CollectCanonical | app.py:467-487 | every collected frame is canonical |
| Window.AlignAllNoop | app.py:493-501 | aligning canonical frames changes nothing |
| Window.RowsOfCanonical | app.py:503 | concatenated canonical frames give canonical rows, as many as the frames hold |
| Window.AssembleRows | app.py:490-507 | concatenating canonical frames gives their rows in order, all canonical, under the canonical labels, and the counters carried over |
| Window.AssembleWellFormed | app.py:503-507 | the concatenated table is rectangular |
| Window.StepCanonical | app.py:481-485 | adding a canonical frame keeps every collected frame canonical |
| Window.LoadEnrollmentRows | app.py:461-507 | the result's rows are the kept frames' rows in month order, each one canonical; the labels are the canonical ones when a month is kept; the counters add up to the number of kept frames |
| Window.LoadEnrollmentEmpty | app.py:490-491 | the empty frame results exactly when no month is kept, with both counters zero |
| Window.LoadEnrollment | app.py:461-507 | the loaded table is rectangular; `LoadEnrollmentRows` and `LoadEnrollmentEmpty` state its rows, labels and counters |
| Window.AlignInPlace | app.py:497-500 | on a frame in place, the new contents are `AlignFill`'s result |
| Window.AlignFrame | app.py:497-501 | aligning a copy gives `Align` |
| Window.AcceptSteps | app.py:473-487 | one month's steps give `Accept` |
| Window.CollectSteps | app.py:467-487 | the first loop gives `Collect` |
| Window.AlignFrames | app.py:494-501 | the second loop gives `AlignAll` |
| Window.LoadEnrollmentSteps | app.py:461-507 | the whole procedure gives `LoadEnrollment` |
| Reference.PlandirNamed | app.py:431 | renaming the directory's labels keeps its rows |
| Reference.PlandirNamedOnce | app.py:431 | whatever the header, each of the four directory names labels at most one column after renaming |
| Reference.PlandirColsUntagged | app.py:438 | none of the four directory names ends in `_<digits>` |
| Reference.FilledCounts | app.py:432-434 | after the guarantee loop each of the four names labels exactly one column |
| Reference.Filled | app.py:432-434 | the filled directory keeps its rows and has each of the four names once |
| Reference.ParentColumn | app.py:435-437 | the repaired parent of each row is its parent, or its organisation name when the parent is empty |
| Reference.Repaired | app.py:435-437 | the repair keeps the rows and the labels |
| Reference.Chosen | app.py:438 | the selection has exactly the four directory labels, in order |
| Reference.NormalisePlandir | app.py:430-438 | the directory has the four labels, in order, and no more rows than the file |
| Reference.FilledCell | app.py:432-434 | filling keeps each row's cell under a directory name, or adds `""` |
| Reference.ChosenCell | app.py:432-438 | a chosen cell is the renamed row's cell under that name, with the parent repaired |
| Reference.ChosenRow | app.py:430-438 | each chosen row holds the contract, organisation, repaired parent and plan type of its file row |
| Reference.NormalisePlandirKeys | app.py:438 | no contract appears twice, every contract of the file appears, and each row is the first file row for its contract |
| Reference.NormalisePlandirRow | app.py:430-438 | row `j` is built from the first file row with its contract |
| Reference.PlandirParentFilled | app.py:435-437 | a directory row has an empty parent only when its organisation name is empty too |
| Reference.PlandirParentFromOrg | app.py:432-437 | without a parent column, each row's parent is its organisation name |
| Reference.ParentLookup | app.py:609 | the lookup rows are contract-parent pairs |
| Reference.JoinParent | app.py:608-612 | the merge keeps the rows and appends one `Parent_Org` column |
| Reference.AddParentOrgKeepsRows | app.py:604-613 | the row count never changes and other columns are unchanged; it fails exactly on the fallback path with a repeated `Org_Name` |
| Reference.AddParentOrg | app.py:604-613 | a result keeps the row count and has a `Parent_Org` column; the only failure is a repeated `Org_Name`; `AddParentOrgKeepsRows` and `JoinParentCell` state the cells |
| Reference.ParentForFirst | app.py:608-612 | looking a contract up finds the parent of the first directory row with that contract, if any |
| Reference.PairLookup | app.py:609 | the same for any two-cell copy of the contract and parent columns |
| Reference.LookupFirst | app.py:609 | scanning the selection stops where scanning the directory does |
| Reference.JoinParentCell | app.py:608-612 | a merged row gets the first matching directory row's parent, or `"Independent / Other"` |
| Reference.FallbackParent | app.py:605-607 | with an empty or keyless directory, `Parent_Org` copies `Org_Name`, or is `"Independent/Other"` when there is no `Org_Name` |
| Reference.CanonicalColsJoinable | app.py:397-401 | the canonical enrollment labels have one contract column and no parent column |
| Reference.PlandirColsDistinct | app.py:438 | the directory's contract and parent labels occur once |
| Reference.CanonicalJoinable | app.py:604-611 | a normalised directory and a canonical enrollment frame meet the merge's needs; the directory is unkeyed exactly when it has no rows |
| Reference.LoadedJoinable | app.py:964-969 | a loaded enrollment frame with at least one row, the only kind `main` passes to `add_parent_org`, and any normalised directory meet the merge's needs |
| Reference.AddParentOrgTo | app.py:604-613 | returns `AddParentOrg`'s result; the fallback path also assigns it into the caller's frame, and the merge path leaves that frame alone |
| Filters.ByMember | app.py:849-852 | a membership step keeps the labels and the frame rectangular |
| Filters.ByPeriod | app.py:853-855 | the period step keeps the labels and the frame rectangular |
| Filters.ApplyFilters | app.py:847-856 | filtering keeps the labels and the frame rectangular |
| Filters.ByMemberKeeps | app.py:849-852 | a membership step keeps exactly the rows whose cell is listed, in order; an empty list keeps all |
| Filters.ByPeriodKeeps | app.py:853-855 | the period step keeps exactly the rows inside the inclusive range, in order; unless both ends are set it keeps all |
| Filters.ApplyFiltersKeeps | app.py:847-856 | the result is the input with exactly the rows that pass every active filter, in order |
| Filters.ApplyFiltersSound | app.py:847-856 | every remaining row is an input row that passes every active filter |
| Filters.ApplyFiltersComplete | app.py:847-856 | no input row that passes every active filter is lost |
| Filters.ApplyFiltersOrder | app.py:847-856 | the remaining rows keep their relative order |
| Filters.ApplyFiltersIdempotent | app.py:847-856 | filtering a filtered table again changes nothing |
| Filters.NoSelection | app.py:847-856 | with nothing selected the table comes back unchanged |

## Left out

- I/O: HTTP downloads, zip extraction, file reading, `os.path.exists` and `os.listdir`, and the
  multi-encoding CSV and Excel readers. Their outcomes are inputs: a set of existing names, a
  directory listing, the decoded lines, and an optional frame per source.
- `_read_local_file` and `_fetch_zip_df`, apart from the `_pick_file` and `_detect_skiprows` logic
  they call. Their "at least three columns" check is part of the reader's outcome.
- `load_plan_directory`: its fallback loop over `rolling_months(6)` only combines reads with
  `normalise_plandir`, which is modelled.
- Streamlit caching, the progress bar, the status banner, the sidebar, the charts, `fmt`, the
  summary tables and `demo_data`. These are UI, floating point or randomness.
- Floating point in `pd.to_numeric`. Enrollment parsing accepts an optional sign followed by
  decimal digits; anything else reads as 0, so `"12.5"` reads as 0 here, not 12.
- NaN cells. A missing value is the empty text cell. In `add_parent_org`, a matched directory row
  whose parent is itself missing keeps that empty value: `fillna` is not modelled to replace it
  with the sentinel.
- Non-ASCII case mapping in `lower()` and `title()`, non-string column labels, path joining, and the range limits of
  `pd.Timestamp`.
- Filters.ApplyFilters: a missing or repeated filter column raises in pandas; the model requires
  every active filter's column to exist once (`Applicable`) instead of modelling the exception.
- Filters.InPeriod: a `Period` cell that is not a date is treated as outside the range, where
  pandas would raise on the comparison.
- Reference.AddParentOrg: the merge path requires one `Contract_ID` column and no `Parent_Org` in
  the enrollment frame, and one `Contract_ID` and `Parent_Org` in the directory (`Joinable`).
  `CanonicalJoinable` shows that every frame `load_enrollment` produces when it keeps a month
  (its header is then `CPSC_OUTPUT_COLS`, by `Window.LoadEnrollmentRows`) meets this together
  with any `normalise_plandir` result. The empty frame `load_enrollment` returns when no month is
  kept has no `Contract_ID` and does not meet it, but `main` never merges an empty frame
  (app.py:964-969); `LoadedJoinable` states this for the frames `main` does merge. A repeated `Org_Name` on the fallback path is an error; a repeated `Parent_Org`
  there is not modelled separately.
- Reference.NormalisePlandir: the `"Independent/Other"` default of `df.get("Org_Name", ...)` never
  applies, because the guarantee loop always creates `Org_Name` first. The model therefore uses
  `Org_Name` directly.
- Sources.LocalPlandir: a directory that does not exist is `None` in the listing input.
- Cleansing.EnrollmentValue: integers are unbounded. `astype(int)` gives 64-bit integers, so a value
  beyond their range, which `to_numeric` reads as a float, overflows in pandas, where the model
  keeps the exact value.
