/** Where a month's data comes from: the download URLs, the names of pre-fetched files, the member
    picked inside a downloaded archive, header-row detection and the local-then-live fallback. */
module Sources {
  import opened Outcomes
  import opened Strings
  import opened Tables
  import opened Calendar

  // ---------------------------------------------------------------------------
  // Download URLs
  // ---------------------------------------------------------------------------

  const ZipBase: string := "https://www.cms.gov/files/zip/"

  /** The part of both archive names after their fixed prefix: `<month name>-<year>.zip`. */
  function ArchiveTail(year: int, m: Month): (r: string)
    ensures EndsWith(r, ".zip")
  {
    var r := MonthName(m) + "-" + IntToString(year) + ".zip";
    assert r[|r| - 4..] == ".zip";
    r
  }

  /** `cpsc_url(year, month)`: a zip archive under the CMS files directory. */
  function CpscUrl(year: int, m: Month): (r: string)
    ensures StartsWith(r, ZipBase + "monthly-enrollment-cpsc-") && EndsWith(r, ".zip")
  {
    var tail := ArchiveTail(year, m);
    var r := ZipBase + "monthly-enrollment-cpsc-" + tail;
    assert r[|r| - 4..] == tail[|tail| - 4..];
    r
  }

  /** `plandir_url(year, month)`: a zip archive under the CMS files directory. */
  function PlandirUrl(year: int, m: Month): (r: string)
    ensures StartsWith(r, ZipBase + "plan-directory-") && EndsWith(r, ".zip")
  {
    var tail := ArchiveTail(year, m);
    var r := ZipBase + "plan-directory-" + tail;
    assert r[|r| - 4..] == tail[|tail| - 4..];
    r
  }

  lemma MonthNameNoDash(m: Month)
    ensures '-' !in MonthName(m)
  {
  }

  lemma MonthNameInjective(a: Month, b: Month)
    requires MonthName(a) == MonthName(b)
    ensures a == b
  {
    AbbrevInjective(a, b);
  }

  lemma DropPrefix(p: string, a: string, b: string)
    requires p + a == p + b
    ensures a == b
  {
    assert a == (p + a)[|p|..];
  }

  lemma DropSuffix(a: string, b: string, s: string)
    requires a + s == b + s
    ensures a == b
  {
    assert a == (a + s)[..|a|];
  }

  /** The tail determines the period. */
  lemma ArchiveTailInjective(y1: int, m1: Month, y2: int, m2: Month)
    requires ArchiveTail(y1, m1) == ArchiveTail(y2, m2)
    ensures y1 == y2 && m1 == m2
  {
    MonthNameNoDash(m1);
    MonthNameNoDash(m2);
    TailParts(MonthName(m1), MonthName(m2), IntToString(y1), IntToString(y2));
    MonthNameInjective(m1, m2);
    IntToStringInjective(y1, y2);
  }

  /** `name-digits.zip` splits back into the name and the digits when the name has no dash. */
  lemma TailParts(n1: string, n2: string, d1: string, d2: string)
    requires '-' !in n1 && '-' !in n2
    requires n1 + "-" + d1 + ".zip" == n2 + "-" + d2 + ".zip"
    ensures n1 == n2 && d1 == d2
  {
    var t1, t2 := d1 + ".zip", d2 + ".zip";
    assert n1 + "-" + d1 + ".zip" == n1 + ['-'] + t1;
    assert n2 + "-" + d2 + ".zip" == n2 + ['-'] + t2;
    SplitAtSeparator(n1, n2, '-', t1, t2);
    DropSuffix(d1, d2, ".zip");
  }

  /** Different periods are downloaded from different addresses. */
  lemma CpscUrlInjective(y1: int, m1: Month, y2: int, m2: Month)
    requires CpscUrl(y1, m1) == CpscUrl(y2, m2)
    ensures y1 == y2 && m1 == m2
  {
    DropPrefix(ZipBase + "monthly-enrollment-cpsc-", ArchiveTail(y1, m1), ArchiveTail(y2, m2));
    ArchiveTailInjective(y1, m1, y2, m2);
  }

  lemma PlandirUrlInjective(y1: int, m1: Month, y2: int, m2: Month)
    requires PlandirUrl(y1, m1) == PlandirUrl(y2, m2)
    ensures y1 == y2 && m1 == m2
  {
    DropPrefix(ZipBase + "plan-directory-", ArchiveTail(y1, m1), ArchiveTail(y2, m2));
    ArchiveTailInjective(y1, m1, y2, m2);
  }

  // ---------------------------------------------------------------------------
  // Pre-fetched files
  // ---------------------------------------------------------------------------

  /** The extensions tried, in order of preference. */
  const TableExts: seq<string> := [".csv", ".xlsx", ".xls"]

  /** `f"{month:02d}"`. */
  function TwoDigits(m: Month): string {
    ZFill(NatToString(m), 2)
  }

  /** The name of the pre-fetched extract for a period with a given extension. */
  function CpscFileName(year: int, m: Month, ext: string): string {
    "cpsc-" + IntToString(year) + "-" + TwoDigits(m) + ext
  }

  /** The three candidate names, in the order they are tried. */
  function CpscCandidates(year: int, m: Month): (cs: seq<string>)
    ensures |cs| == |TableExts|
  {
    seq(|TableExts|, i requires 0 <= i < |TableExts| => CpscFileName(year, m, TableExts[i]))
  }

  /** What `_local_cpsc_path` finds among the existing file names. */
  function LocalCpsc(existing: set<string>, year: int, m: Month): (r: Option<string>)
    ensures r.Some? ==> r.value in existing && r.value in CpscCandidates(year, m)
  {
    var cs := CpscCandidates(year, m);
    var k := FirstIndex(cs, c => c in existing);
    if k < |cs| then Some(cs[k]) else None
  }

  /** The result exists and is the most preferred candidate that does; there is none only when no
      candidate exists. */
  lemma LocalCpscSpec(existing: set<string>, year: int, m: Month)
    ensures var r := LocalCpsc(existing, year, m);
            && (r.Some? ==> r.value in existing
                            && exists i :: 0 <= i < |TableExts| && r.value == CpscFileName(year, m, TableExts[i])
                                           && forall j :: 0 <= j < i ==> CpscFileName(year, m, TableExts[j]) !in existing)
            && (r.None? <==> forall i :: 0 <= i < |TableExts| ==> CpscFileName(year, m, TableExts[i]) !in existing)
  {
    var cs := CpscCandidates(year, m);
    var k := FirstIndex(cs, c => c in existing);
    if k < |cs| {
      assert cs[k] == CpscFileName(year, m, TableExts[k]);
      forall j | 0 <= j < k ensures CpscFileName(year, m, TableExts[j]) !in existing {
        assert cs[j] == CpscFileName(year, m, TableExts[j]);
      }
    } else {
      forall i | 0 <= i < |TableExts| ensures CpscFileName(year, m, TableExts[i]) !in existing {
        assert cs[i] == CpscFileName(year, m, TableExts[i]);
      }
    }
  }

  /** `_local_cpsc_path`: try each extension in turn and return the first name that exists. */
  method LocalCpscPath(existing: set<string>, year: int, m: Month) returns (r: Option<string>)
    ensures r == LocalCpsc(existing, year, m)
  {
    var cs := CpscCandidates(year, m);
    var i := 0;
    while i < |cs|
      invariant 0 <= i <= |cs|
      invariant forall j :: 0 <= j < i ==> cs[j] !in existing
    {
      if cs[i] in existing {
        FirstIndexAt(cs, c => c in existing, i);
        return Some(cs[i]);
      }
      i := i + 1;
    }
    return None;
  }

  /** A name the plan-directory lookup accepts. */
  predicate IsPlandirFile(n: string) {
    StartsWith(n, "plan-directory") && (EndsWith(n, ".csv") || EndsWith(n, ".xlsx") || EndsWith(n, ".xls"))
  }

  /** The greatest accepted name in `names` under Python's string order. */
  function GreatestPlandirFile(names: seq<string>): (r: Option<string>)
  {
    if names == [] then None
    else
      var rest := GreatestPlandirFile(names[1..]);
      if !IsPlandirFile(names[0]) then rest
      else if rest.Some? && LexLess(names[0], rest.value) then rest
      else Some(names[0])
  }

  /** The name found is an accepted name of the listing and no accepted name sorts after it;
      nothing is found only when no name is accepted. */
  lemma {:induction false} GreatestPlandirFileSpec(names: seq<string>)
    ensures var r := GreatestPlandirFile(names);
            && (r.Some? ==> r.value in names && IsPlandirFile(r.value)
                            && forall n | n in names && IsPlandirFile(n) :: !LexLess(r.value, n))
            && (r.None? <==> forall n | n in names :: !IsPlandirFile(n))
  {
    if names != [] {
      GreatestPlandirFileSpec(names[1..]);
      var rest := GreatestPlandirFile(names[1..]);
      var r := GreatestPlandirFile(names);
      if r.Some? {
        forall n | n in names && IsPlandirFile(n) ensures !LexLess(r.value, n) {
          if n == names[0] {
            LexLessIrreflexive(n);
            if r.value != n {
              assert LexLess(n, r.value);
              if LexLess(r.value, n) { LexLessTransitive(n, r.value, n); LexLessIrreflexive(n); }
            }
          } else {
            assert n in names[1..];
            if r.value == names[0] && rest.Some? {
              assert !LexLess(rest.value, n);
              if LexLess(r.value, n) {
                if rest.value == n {
                } else {
                  LexLessTotal(rest.value, n);
                  assert LexLess(n, rest.value);
                  LexLessTransitive(r.value, n, rest.value);
                }
              }
            }
          }
        }
      }
    }
  }

  /** `_local_plandir_path`: no directory gives nothing; otherwise the accepted name that comes first
      in reverse-sorted order, which is the greatest one. */
  function LocalPlandir(listing: Option<seq<string>>): (r: Option<string>)
    ensures r.Some? ==> && listing.Some? && r.value in listing.value && IsPlandirFile(r.value)
                        && forall n | n in listing.value && IsPlandirFile(n) :: !LexLess(r.value, n)
    ensures r.None? <==> listing.None? || forall n | n in listing.value :: !IsPlandirFile(n)
  {
    if listing.None? then None
    else
      GreatestPlandirFileSpec(listing.value);
      GreatestPlandirFile(listing.value)
  }

  // ---------------------------------------------------------------------------
  // The member picked inside a downloaded archive
  // ---------------------------------------------------------------------------

  /** Ends in one of the table extensions, ignoring case. */
  predicate HasTableExt(n: string) {
    EndsWith(Lower(n), ".csv") || EndsWith(Lower(n), ".xlsx") || EndsWith(Lower(n), ".xls")
  }

  /** Resource-fork or hidden entries, skipped by the second and third tiers. */
  predicate IsJunk(n: string) {
    Contains(n, "__MACOSX") || StartsWith(n, ".")
  }

  /** First tier: the name contains the hint, ignoring case, and has a table extension. */
  predicate HintMatch(hint: string, n: string) {
    hint != "" && Contains(Lower(n), Lower(hint)) && HasTableExt(n)
  }

  /** Second tier: a visible CSV. */
  predicate CsvMatch(n: string) {
    !IsJunk(n) && EndsWith(Lower(n), ".csv")
  }

  /** Third tier: a visible workbook. */
  predicate ExcelMatch(n: string) {
    !IsJunk(n) && (EndsWith(Lower(n), ".xlsx") || EndsWith(Lower(n), ".xls"))
  }

  /** The first name of `names` satisfying `p`, if any. */
  function FirstMatch(names: seq<string>, p: string -> bool): (r: Option<string>)
    ensures r.Some? ==> r.value in names && p(r.value)
    ensures r.Some? ==> exists k :: 0 <= k < |names| && names[k] == r.value && forall j :: 0 <= j < k ==> !p(names[j])
    ensures r.None? <==> forall n | n in names :: !p(n)
  {
    var k := FirstIndex(names, p);
    if k < |names| then Some(names[k]) else None
  }

  /** What `_pick_file(names, hint)` returns. */
  function Picked(names: seq<string>, hint: string): (r: Option<string>)
    ensures r.Some? ==> r.value in names && HasTableExt(r.value)
  {
    var a := FirstMatch(names, n => HintMatch(hint, n));
    if a.Some? then a
    else
      var b := FirstMatch(names, CsvMatch);
      if b.Some? then b else FirstMatch(names, ExcelMatch)
  }

  /** The pick is a member of the archive, from the highest tier that has one; nothing is picked
      only when no name qualifies for any tier. */
  lemma PickedSpec(names: seq<string>, hint: string)
    ensures var r := Picked(names, hint);
            && (r.Some? ==> r.value in names
                            && (HintMatch(hint, r.value)
                                || (CsvMatch(r.value) && forall n | n in names :: !HintMatch(hint, n))
                                || (ExcelMatch(r.value) && forall n | n in names :: !HintMatch(hint, n) && !CsvMatch(n))))
            && (r.None? <==> forall n | n in names :: !HintMatch(hint, n) && !CsvMatch(n) && !ExcelMatch(n))
  {
  }

  /** The hint tier does not skip junk entries: a `__MACOSX` copy listed first is picked. */
  lemma HintTierTakesJunk(names: seq<string>, hint: string)
    requires names != [] && IsJunk(names[0]) && HintMatch(hint, names[0])
    ensures Picked(names, hint) == Some(names[0])
  {
  }

  /** `_pick_file`: three passes over the names, each returning at its first match. */
  method PickFile(names: seq<string>, hint: string) returns (r: Option<string>)
    ensures r == Picked(names, hint)
  {
    var k := ScanFirst(names, n => HintMatch(hint, n));
    if k < |names| {
      return Some(names[k]);
    }
    k := ScanFirst(names, CsvMatch);
    if k < |names| {
      return Some(names[k]);
    }
    k := ScanFirst(names, ExcelMatch);
    if k < |names| {
      return Some(names[k]);
    }
    return None;
  }

  /** One pass of `_pick_file`: the position of the first name passing `p`, or `|names|`. */
  method ScanFirst(names: seq<string>, p: string -> bool) returns (k: nat)
    ensures k == FirstIndex(names, p)
  {
    k := 0;
    while k < |names|
      invariant k <= |names|
      invariant forall j :: 0 <= j < k ==> !p(names[j])
    {
      if p(names[k]) {
        FirstIndexAt(names, p, k);
        return;
      }
      k := k + 1;
    }
  }

  // ---------------------------------------------------------------------------
  // Header-row detection
  // ---------------------------------------------------------------------------

  /** A line that looks like the header row. */
  predicate IsHeaderLine(line: string) {
    Contains(Lower(line), "contract") || Contains(Lower(line), "enrollment") || Contains(Lower(line), "plan")
  }

  /** How many leading lines are examined. */
  const ScanLines: nat := 5

  /** The number of rows `_detect_skiprows` tells the reader to skip. */
  function SkipRows(lines: seq<string>): (k: nat)
    ensures k < ScanLines
  {
    var head := if |lines| <= ScanLines then lines else lines[..ScanLines];
    var i := FirstIndex(head, IsHeaderLine);
    if i < |head| then i else 0
  }

  /** The skip count is below five; a positive count points at a header-like line with none before
      it, and zero means either the first line is header-like or none of the first five is. */
  lemma SkipRowsSpec(lines: seq<string>)
    ensures SkipRows(lines) < ScanLines
    ensures SkipRows(lines) > 0 ==> SkipRows(lines) < |lines| && IsHeaderLine(lines[SkipRows(lines)])
    ensures forall j :: 0 <= j < SkipRows(lines) ==> !IsHeaderLine(lines[j])
    ensures SkipRows(lines) == 0 ==>
              (|lines| > 0 && IsHeaderLine(lines[0])) || forall j :: 0 <= j < |lines| && j < ScanLines ==> !IsHeaderLine(lines[j])
  {
    var head := if |lines| <= ScanLines then lines else lines[..ScanLines];
    var i := FirstIndex(head, IsHeaderLine);
    assert forall j :: 0 <= j < |head| ==> head[j] == lines[j];
  }

  /** `_detect_skiprows` over the decoded lines: the index of the first header-like line among the
      first five, or 0. */
  method DetectSkipRows(lines: seq<string>) returns (k: nat)
    ensures k == SkipRows(lines)
  {
    var head := if |lines| <= ScanLines then lines else lines[..ScanLines];
    var i := 0;
    while i < |head|
      invariant 0 <= i <= |head|
      invariant forall j :: 0 <= j < i ==> !IsHeaderLine(head[j])
    {
      var lower := Lower(head[i]);
      if Contains(lower, "contract") || Contains(lower, "enrollment") || Contains(lower, "plan") {
        FirstIndexAt(head, IsHeaderLine, i);
        return i;
      }
      i := i + 1;
    }
    return 0;
  }

  // ---------------------------------------------------------------------------
  // One month: local file first, live download second
  // ---------------------------------------------------------------------------

  /** `_load_one_cpsc` with its I/O as inputs: whether a pre-fetched file exists, what reading it
      produced and what the live download produced. The local frame is used only when it has more
      than ten rows. */
  function LoadOne(hasLocal: bool, localRead: Option<Table>, live: Option<Table>): (r: Option<Table>)
    ensures r == live || (hasLocal && r == localRead && Usable(r))
    ensures hasLocal && Usable(localRead) ==> r == localRead
    ensures Usable(r) <==> (hasLocal && Usable(localRead)) || Usable(live)
  {
    if hasLocal && Usable(localRead) then localRead else live
  }

  /** A frame with more than ten rows: the bar a pre-fetched frame must clear, and the one the
      caller applies to whatever is returned. */
  predicate Usable(f: Option<Table>) {
    f.Some? && |f.value.rows| > 10
  }
}
