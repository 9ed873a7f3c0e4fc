/** A pandas DataFrame reduced to what the pipeline uses: an ordered list of column labels
    (repeats allowed, as in pandas) and rows of cells. */
module Tables {
  import opened Outcomes
  import opened Strings

  /** One cell: text as read from a file, an integer, or a calendar date. */
  datatype Cell = Str(s: string) | Int(n: int) | Date(year: int, month: int, day: int)

  /** `str(cell)`, which is what `Series.astype(str)` produces; a date renders as pandas' Timestamp does. */
  function AsText(c: Cell): string {
    match c
    case Str(s) => s
    case Int(n) => IntToString(n)
    case Date(y, m, d) =>
      ZFill(IntToString(y), 4) + "-" + ZFill(IntToString(m), 2) + "-" + ZFill(IntToString(d), 2) + " 00:00:00"
  }

  datatype Table = Table(cols: seq<string>, rows: seq<seq<Cell>>)

  /** Every row has one cell per column. */
  predicate WellFormed(t: Table) {
    forall r | r in t.rows :: |r| == |t.cols|
  }

  /** pandas' `df.empty`: no columns or no rows. */
  predicate IsEmpty(t: Table) {
    |t.cols| == 0 || |t.rows| == 0
  }

  /** How many columns carry the label `x`. */
  function Count(s: seq<string>, x: string): nat {
    multiset(s)[x]
  }

  /** The negation of pandas' `df.columns.duplicated().any()`. */
  predicate NoDuplicates(s: seq<string>) {
    forall i, j | 0 <= i < j < |s| :: s[i] != s[j]
  }

  lemma {:induction false} CountAtMostOne(s: seq<string>, x: string)
    requires forall i, j | 0 <= i < j < |s| :: !(s[i] == x && s[j] == x)
    ensures Count(s, x) <= 1
  {
    if s != [] {
      var init := s[..|s| - 1];
      assert s == init + [s[|s| - 1]];
      CountAtMostOne(init, x);
      if s[|s| - 1] == x {
        forall i | 0 <= i < |init| ensures init[i] != x {
          assert init[i] == s[i];
        }
        assert x !in multiset(init);
      }
    }
  }

  lemma NoDuplicatesCount(s: seq<string>, x: string)
    requires NoDuplicates(s)
    ensures Count(s, x) <= 1
  {
    CountAtMostOne(s, x);
  }

  /** The positions of the columns labelled `x`, left to right. */
  function IndicesOf(cols: seq<string>, x: string): (r: seq<nat>)
    ensures |r| == Count(cols, x)
    ensures forall k :: 0 <= k < |r| ==> r[k] < |cols| && cols[r[k]] == x
  {
    if cols == [] then []
    else
      var init := cols[..|cols| - 1];
      assert cols == init + [cols[|cols| - 1]];
      var rest := IndicesOf(init, x);
      if cols[|cols| - 1] == x then rest + [|cols| - 1] else rest
  }

  /** The column positions `df[labels]` picks: for each label, every column carrying it. */
  function Positions(cols: seq<string>, labels: seq<string>): (r: seq<nat>)
    ensures forall k :: 0 <= k < |r| ==> r[k] < |cols|
  {
    if labels == [] then [] else IndicesOf(cols, labels[0]) + Positions(cols, labels[1..])
  }

  /** The columns at positions `ps`, in that order. */
  function Project(t: Table, ps: seq<nat>): (r: Table)
    requires WellFormed(t)
    requires forall k :: 0 <= k < |ps| ==> ps[k] < |t.cols|
    ensures WellFormed(r) && |r.rows| == |t.rows| && |r.cols| == |ps|
    ensures forall k :: 0 <= k < |ps| ==> r.cols[k] == t.cols[ps[k]]
    ensures forall i, k :: 0 <= i < |t.rows| && 0 <= k < |ps| ==> r.rows[i][k] == t.rows[i][ps[k]]
  {
    Table(seq(|ps|, k requires 0 <= k < |ps| => t.cols[ps[k]]),
          seq(|t.rows|, i requires 0 <= i < |t.rows| =>
            assert t.rows[i] in t.rows;
            seq(|ps|, k requires 0 <= k < |ps| => t.rows[i][ps[k]])))
  }

  /** `df[labels]`. */
  function Select(t: Table, labels: seq<string>): (r: Table)
    requires WellFormed(t)
    ensures WellFormed(r) && |r.rows| == |t.rows|
  {
    Project(t, Positions(t.cols, labels))
  }

  /** When every requested label names exactly one column, `df[labels]` has exactly those labels,
      and each cell comes from the column of that name. */
  lemma {:induction false} PositionsOfUnique(cols: seq<string>, labels: seq<string>)
    requires forall l | l in labels :: Count(cols, l) == 1
    ensures |Positions(cols, labels)| == |labels|
    ensures forall k :: 0 <= k < |labels| ==> cols[Positions(cols, labels)[k]] == labels[k]
  {
    if labels != [] {
      PositionsOfUnique(cols, labels[1..]);
      var p := Positions(cols, labels);
      assert p == IndicesOf(cols, labels[0]) + Positions(cols, labels[1..]);
      forall k | 0 <= k < |labels| ensures cols[p[k]] == labels[k] {
        if k > 0 {
          assert p[k] == Positions(cols, labels[1..])[k - 1];
        }
      }
    }
  }

  lemma SelectUnique(t: Table, labels: seq<string>)
    requires WellFormed(t)
    requires forall l | l in labels :: Count(t.cols, l) == 1
    ensures Select(t, labels).cols == labels
  {
    PositionsOfUnique(t.cols, labels);
  }

  /** Selecting a frame's own labels, when none repeats, gives the frame back. */
  lemma SelectOwnColumns(t: Table)
    requires WellFormed(t) && NoDuplicates(t.cols)
    ensures Select(t, t.cols) == t
  {
    NoDuplicatesCountOne(t.cols);
    PositionsOfUnique(t.cols, t.cols);
    var ps := Positions(t.cols, t.cols);
    forall k | 0 <= k < |ps| ensures ps[k] == k {
      SameLabelSameIndex(t.cols, ps[k], k);
    }
    ProjectIdentity(t, ps);
  }

  /** With unique labels, column `k` of `df[labels]` is the column carrying `labels[k]`. */
  lemma SelectAt(t: Table, labels: seq<string>, k: nat, j: nat)
    requires WellFormed(t) && forall l | l in labels :: Count(t.cols, l) == 1
    requires k < |labels| && j < |t.cols| && t.cols[j] == labels[k]
    ensures var r := Select(t, labels);
            forall i :: 0 <= i < |r.rows| ==> |r.rows[i]| == |labels| && r.rows[i][k] == t.rows[i][j]
  {
    var ps := Positions(t.cols, labels);
    PositionsOfUnique(t.cols, labels);
    assert labels[k] in labels;
    OnceAt(t.cols, j, ps[k]);
    var r := Project(t, ps);
    forall i | 0 <= i < |r.rows| ensures |r.rows[i]| == |labels| {
      assert r.rows[i] in r.rows;
    }
  }

  /** Selecting after assigning an existing column: a selected cell is the assigned value in that
      column and the old cell elsewhere. */
  lemma SelectAfterSet(t: Table, labels: seq<string>, name: string, values: seq<Cell>, i: nat, k: nat)
    requires WellFormed(t) && |values| == |t.rows| && name in t.cols
    requires forall l | l in labels :: Count(t.cols, l) == 1
    requires i < |t.rows| && k < |labels|
    ensures labels[k] in t.cols && |t.rows[i]| == |t.cols|
    ensures var r := Select(SetColumn(t, name, values), labels);
            && |r.rows[i]| == |labels|
            && r.rows[i][k] == if labels[k] == name then values[i] else t.rows[i][IndexOf(t.cols, labels[k])]
  {
    var u := SetColumn(t, name, values);
    assert labels[k] in labels;
    assert labels[k] in multiset(t.cols);
    assert t.rows[i] in t.rows;
    SelectAt(u, labels, k, IndexOf(t.cols, labels[k]));
  }

  /** A prefix of a prefix is a prefix. */
  lemma PrefixOfPrefix<T>(a: seq<T>, b: seq<T>, c: seq<T>)
    requires |c| <= |b| <= |a| && a[..|b|] == b && b[..|c|] == c
    ensures a[..|c|] == c
  {
    assert a[..|b|][..|c|] == a[..|c|];
  }

  lemma ProjectIdentity(t: Table, ps: seq<nat>)
    requires WellFormed(t) && |ps| == |t.cols| && forall k :: 0 <= k < |ps| ==> ps[k] == k
    ensures Project(t, ps) == t
  {
    var r := Project(t, ps);
    assert r.cols == t.cols;
    forall i | 0 <= i < |t.rows| ensures r.rows[i] == t.rows[i] {
      assert t.rows[i] in t.rows && r.rows[i] in r.rows;
    }
    assert r.rows == t.rows;
  }

  lemma NoDuplicatesCountOne(s: seq<string>)
    requires NoDuplicates(s)
    ensures forall l | l in s :: Count(s, l) == 1
  {
    forall l | l in s ensures Count(s, l) == 1 {
      NoDuplicatesCount(s, l);
      assert l in multiset(s);
    }
  }

  /** In a list without repeats, the label at any position occurs once. */
  lemma DistinctCountOne(s: seq<string>, k: nat)
    requires NoDuplicates(s) && k < |s|
    ensures Count(s, s[k]) == 1
  {
    NoDuplicatesCount(s, s[k]);
    assert s[k] in multiset(s);
  }

  /** A label that occurs once is found at one position only. */
  lemma OnceAt(s: seq<string>, i: nat, j: nat)
    requires i < |s| && j < |s| && Count(s, s[i]) == 1
    ensures s[i] == s[j] ==> i == j
  {
    if i < j {
      RepeatCounts(s, i, j);
    } else if j < i {
      RepeatCounts(s, j, i);
    }
  }

  lemma SameLabelSameIndex(s: seq<string>, i: nat, j: nat)
    requires NoDuplicates(s) && i < |s| && j < |s| && s[i] == s[j]
    ensures i == j
  {
  }

  /** `df[name] = values`: overwrites every column labelled `name`, or appends one. */
  function SetColumn(t: Table, name: string, values: seq<Cell>): (r: Table)
    requires WellFormed(t) && |values| == |t.rows|
    ensures WellFormed(r) && |r.rows| == |t.rows|
    ensures r.cols == if name in t.cols then t.cols else t.cols + [name]
    ensures forall i, j :: 0 <= i < |t.rows| && 0 <= j < |r.cols| ==>
              r.rows[i][j] == if r.cols[j] == name then values[i] else t.rows[i][j]
  {
    if name in t.cols then
      Table(t.cols, seq(|t.rows|, i requires 0 <= i < |t.rows| =>
        assert t.rows[i] in t.rows;
        seq(|t.cols|, j requires 0 <= j < |t.cols| => if t.cols[j] == name then values[i] else t.rows[i][j])))
    else
      Table(t.cols + [name], seq(|t.rows|, i requires 0 <= i < |t.rows| =>
        assert t.rows[i] in t.rows;
        t.rows[i] + [values[i]]))
  }

  /** The column a scalar assignment `df[name] = v` broadcasts: `v` in each of `n` rows. */
  function ConstColumn(n: nat, v: Cell): (r: seq<Cell>)
    ensures |r| == n && forall i :: 0 <= i < n ==> r[i] == v
  {
    seq(n, _ => v)
  }

  /** `df[name] = v` for a scalar `v`. */
  function SetConst(t: Table, name: string, v: Cell): (r: Table)
    requires WellFormed(t)
    ensures WellFormed(r) && |r.rows| == |t.rows|
    ensures r.cols == if name in t.cols then t.cols else t.cols + [name]
  {
    SetColumn(t, name, ConstColumn(|t.rows|, v))
  }

  /** Assigning a column leaves the count of every other label alone and leaves `name` present. */
  lemma SetColumnCounts(t: Table, name: string, values: seq<Cell>, x: string)
    requires WellFormed(t) && |values| == |t.rows|
    ensures x != name ==> Count(SetColumn(t, name, values).cols, x) == Count(t.cols, x)
    ensures Count(SetColumn(t, name, values).cols, name) == if name in t.cols then Count(t.cols, name) else 1
  {
  }

  /** Assigning a column never removes a label, never makes a label repeat that did not, and leaves
      `name` present. */
  lemma SetColumnKeepsCounts(t: Table, name: string, values: seq<Cell>, x: string)
    requires WellFormed(t) && |values| == |t.rows|
    ensures Count(SetColumn(t, name, values).cols, name) >= 1
    ensures Count(t.cols, x) >= 1 ==> Count(SetColumn(t, name, values).cols, x) >= 1
    ensures Count(t.cols, x) <= 1 ==> Count(SetColumn(t, name, values).cols, x) <= 1
  {
    SetColumnCounts(t, name, values, x);
    SetColumnCounts(t, name, values, name);
  }

  lemma CountSnoc(s: seq<string>, e: string, x: string)
    ensures Count(s + [e], x) == Count(s, x) + if e == x then 1 else 0
  {
    assert multiset(s + [e]) == multiset(s) + multiset{e};
  }

  /** Equal elements at two positions make that element occur at least twice. */
  lemma RepeatCounts(s: seq<string>, i: nat, j: nat)
    requires i < j < |s|
    ensures s[i] == s[j] ==> Count(s, s[i]) >= 2
  {
    assert s == s[..j] + [s[j]] + s[j + 1..];
    assert s[..j][i] == s[i];
    assert multiset(s) == multiset(s[..j]) + multiset([s[j]]) + multiset(s[j + 1..]);
    assert s[i] in multiset(s[..j]);
  }

  /** A list in which every element occurs once has no repeats. */
  lemma CountOneNoDuplicates(s: seq<string>)
    requires forall l | l in s :: Count(s, l) == 1
    ensures NoDuplicates(s)
  {
    forall i, j | 0 <= i < j < |s| ensures s[i] != s[j] {
      RepeatCounts(s, i, j);
      assert s[i] in s;
    }
  }

  /** The test "this cell is `v`". */
  function Equals(v: Cell): Cell -> bool {
    c => c == v
  }

  /** Every cell in a column labelled `name` satisfies `p`. */
  ghost predicate ColumnHolds(t: Table, name: string, p: Cell -> bool)
    requires WellFormed(t)
  {
    forall i, j :: 0 <= i < |t.rows| && 0 <= j < |t.cols| && t.cols[j] == name ==>
      assert t.rows[i] in t.rows; p(t.rows[i][j])
  }

  /** When every requested label names one column, a cell of `df[labels]` comes from the column of
      its label. */
  lemma SelectHolds(t: Table, labels: seq<string>, k: nat, p: Cell -> bool)
    requires WellFormed(t) && (forall l | l in labels :: Count(t.cols, l) == 1)
    requires k < |labels| && ColumnHolds(t, labels[k], p)
    ensures |Select(t, labels).cols| == |labels|
    ensures forall i :: 0 <= i < |t.rows| ==> p(Select(t, labels).rows[i][k])
  {
    PositionsOfUnique(t.cols, labels);
    var ps := Positions(t.cols, labels);
    forall i | 0 <= i < |t.rows| ensures p(Select(t, labels).rows[i][k]) {
      assert t.cols[ps[k]] == labels[k];
      assert Select(t, labels).rows[i][k] == t.rows[i][ps[k]];
    }
  }

  /** Assigning another column leaves a column's cells alone. */
  lemma SetColumnKeepsOther(t: Table, name: string, values: seq<Cell>, other: string, p: Cell -> bool)
    requires WellFormed(t) && |values| == |t.rows| && other != name
    requires ColumnHolds(t, other, p)
    ensures ColumnHolds(SetColumn(t, name, values), other, p)
  {
    var r := SetColumn(t, name, values);
    forall i, j | 0 <= i < |r.rows| && 0 <= j < |r.cols| && r.cols[j] == other
      ensures p(r.rows[i][j])
    {
      assert j < |t.cols| && t.cols[j] == other;
      assert t.rows[i] in t.rows;
    }
  }

  /** What an assignment writes is what the column then holds. */
  lemma SetColumnHolds(t: Table, name: string, values: seq<Cell>, p: Cell -> bool)
    requires WellFormed(t) && |values| == |t.rows|
    requires forall i :: 0 <= i < |values| ==> p(values[i])
    ensures ColumnHolds(SetColumn(t, name, values), name, p)
  {
  }

  /** Assigning a new label appends a column and leaves the existing cells where they were. */
  lemma SetColumnAppends(t: Table, name: string, values: seq<Cell>)
    requires WellFormed(t) && |values| == |t.rows| && name !in t.cols
    ensures var r := SetColumn(t, name, values);
            forall i :: 0 <= i < |t.rows| ==> r.rows[i][..|t.cols|] == t.rows[i]
  {
    var r := SetColumn(t, name, values);
    forall i | 0 <= i < |t.rows| ensures r.rows[i][..|t.cols|] == t.rows[i] {
      assert t.rows[i] in t.rows && r.rows[i] in r.rows;
    }
  }

  /** The cells of column `j`. */
  function Column(t: Table, j: nat): (r: seq<Cell>)
    requires WellFormed(t) && j < |t.cols|
    ensures |r| == |t.rows| && forall i :: 0 <= i < |t.rows| ==> r[i] == t.rows[i][j]
  {
    seq(|t.rows|, i requires 0 <= i < |t.rows| => assert t.rows[i] in t.rows; t.rows[i][j])
  }

  // ---------------------------------------------------------------------------
  // Row filters: `df[mask]`
  // ---------------------------------------------------------------------------

  /** The elements of `s` that satisfy `p`, in order. */
  function Keep<T>(s: seq<T>, p: T -> bool): (r: seq<T>)
    ensures |r| <= |s|
    ensures forall x | x in r :: x in s && p(x)
  {
    if s == [] then []
    else if p(s[0]) then [s[0]] + Keep(s[1..], p)
    else Keep(s[1..], p)
  }

  /** `a` is `b` with some elements left out and the rest in their original order. */
  predicate IsSubsequence<T(==)>(a: seq<T>, b: seq<T>)
    decreases |b|
  {
    a == [] || (b != [] && ((a[0] == b[0] && IsSubsequence(a[1..], b[1..])) || IsSubsequence(a, b[1..])))
  }

  lemma {:induction false} KeepIsSubsequence<T>(s: seq<T>, p: T -> bool)
    ensures IsSubsequence(Keep(s, p), s)
  {
    if s != [] {
      KeepIsSubsequence(s[1..], p);
      if p(s[0]) {
        assert Keep(s, p)[1..] == Keep(s[1..], p);
      }
    }
  }

  /** Nothing that satisfies `p` is lost. */
  lemma {:induction false} KeepComplete<T>(s: seq<T>, p: T -> bool, x: T)
    requires x in s && p(x)
    ensures x in Keep(s, p)
  {
    if s[0] != x {
      KeepComplete(s[1..], p, x);
    }
  }

  /** A filter that every element passes keeps everything. */
  lemma {:induction false} KeepAll<T>(s: seq<T>, p: T -> bool)
    requires forall x | x in s :: p(x)
    ensures Keep(s, p) == s
  {
    if s != [] {
      KeepAll(s[1..], p);
    }
  }

  /** Two successive filters keep what their conjunction keeps. */
  lemma {:induction false} KeepKeep<T>(s: seq<T>, p: T -> bool, q: T -> bool)
    ensures Keep(Keep(s, p), q) == Keep(s, x => p(x) && q(x))
  {
    if s != [] {
      KeepKeep(s[1..], p, q);
      if p(s[0]) {
        assert Keep(s, p) == [s[0]] + Keep(s[1..], p);
        assert Keep(s, p)[1..] == Keep(s[1..], p);
      }
    }
  }

  /** Two tests that agree on every element keep the same elements. */
  lemma {:induction false} KeepSame<T>(s: seq<T>, p: T -> bool, q: T -> bool)
    requires forall x | x in s :: p(x) == q(x)
    ensures Keep(s, p) == Keep(s, q)
  {
    if s != [] {
      KeepSame(s[1..], p, q);
    }
  }

  /** Filtering twice by the same test is filtering once. */
  lemma KeepTwice<T>(s: seq<T>, p: T -> bool)
    ensures Keep(Keep(s, p), p) == Keep(s, p)
  {
    KeepAll(Keep(s, p), p);
  }

  /** The position of the first element satisfying `p`, or `|s|` when there is none. */
  function FirstIndex<T>(s: seq<T>, p: T -> bool): (k: nat)
    ensures k <= |s|
    ensures forall j :: 0 <= j < k ==> !p(s[j])
    ensures k < |s| ==> p(s[k])
  {
    if s == [] || p(s[0]) then 0 else 1 + FirstIndex(s[1..], p)
  }

  lemma FirstIndexAt<T>(s: seq<T>, p: T -> bool, k: nat)
    requires k < |s| && p(s[k]) && forall j :: 0 <= j < k ==> !p(s[j])
    ensures FirstIndex(s, p) == k
  {
  }

  /** The position of the first column labelled `x`. */
  function IndexOf(cols: seq<string>, x: string): (k: nat)
    requires x in cols
    ensures k < |cols| && cols[k] == x
    ensures forall j :: 0 <= j < k ==> cols[j] != x
  {
    FirstIndex(cols, l => l == x)
  }

  /** `df[df[...] matches]` on whole rows. */
  function FilterRows(t: Table, p: seq<Cell> -> bool): (r: Table)
    requires WellFormed(t)
    ensures WellFormed(r) && r.cols == t.cols && |r.rows| <= |t.rows|
  {
    Table(t.cols, Keep(t.rows, p))
  }

  /** Two scans that test corresponding elements alike stop at the same place. */
  lemma FirstIndexAlike<T, U>(s: seq<T>, p: T -> bool, u: seq<U>, q: U -> bool)
    requires |s| == |u| && forall m :: 0 <= m < |s| ==> (p(s[m]) <==> q(u[m]))
    ensures FirstIndex(s, p) == FirstIndex(u, q)
  {
    var a, b := FirstIndex(s, p), FirstIndex(u, q);
    if a < |s| {
      assert q(u[a]);
    }
    if b < |u| {
      assert p(s[b]);
    }
  }

  /** Scanning a list extended at the end finds the old answer, or else the new element. */
  lemma FirstIndexSnoc<T>(s: seq<T>, e: T, p: T -> bool)
    ensures FirstIndex(s + [e], p) ==
              if FirstIndex(s, p) < |s| then FirstIndex(s, p) else if p(e) then |s| else |s| + 1
  {
    var k := FirstIndex(s, p);
    var se := s + [e];
    if k < |s| {
      assert se[k] == s[k];
      FirstIndexAt(se, p, k);
    } else if p(e) {
      assert se[|s|] == e;
      FirstIndexAt(se, p, |s|);
    } else {
      assert forall m :: 0 <= m < |se| ==> !p(se[m]) by {
        forall m | 0 <= m < |se| ensures !p(se[m]) {
          if m < |s| {
            assert se[m] == s[m];
          }
        }
      }
    }
  }

  // ---------------------------------------------------------------------------
  // Keys: `drop_duplicates(subset=...)` and the first row with a key
  // ---------------------------------------------------------------------------

  /** The test "this row holds `c` at position `k`". */
  function HasKey(k: nat, c: Cell): seq<Cell> -> bool {
    row => k < |row| && row[k] == c
  }

  /** The position of the first row holding `c` at position `k`, or the number of rows when none does. */
  function FirstWithKey(rows: seq<seq<Cell>>, k: nat, c: Cell): (j: nat)
    ensures j <= |rows|
    ensures forall m :: 0 <= m < j ==> !(k < |rows[m]| && rows[m][k] == c)
    ensures j < |rows| ==> k < |rows[j]| && rows[j][k] == c
  {
    FirstIndex(rows, HasKey(k, c))
  }

  /** Every row is long enough to have a cell at position `k`. */
  predicate Keyed(rows: seq<seq<Cell>>, k: nat) {
    forall i :: 0 <= i < |rows| ==> k < |rows[i]|
  }

  /** No two rows share the cell at position `k`. */
  predicate UniqueKeys(rows: seq<seq<Cell>>, k: nat)
    requires Keyed(rows, k)
  {
    forall i, j :: 0 <= i < j < |rows| ==> rows[i][k] != rows[j][k]
  }

  /** Each row of `r` is the first row of `rows` with its key. */
  predicate FirstOfKeys(r: seq<seq<Cell>>, rows: seq<seq<Cell>>, k: nat)
    requires Keyed(r, k)
  {
    forall j :: 0 <= j < |r| ==>
      FirstWithKey(rows, k, r[j][k]) < |rows| && r[j] == rows[FirstWithKey(rows, k, r[j][k])]
  }

  /** In a well-formed table every row has a cell in each column. */
  lemma WellFormedKeyed(t: Table, k: nat)
    requires WellFormed(t) && k < |t.cols|
    ensures Keyed(t.rows, k)
  {
    assert forall i :: 0 <= i < |t.rows| ==> t.rows[i] in t.rows;
  }

  /** `drop_duplicates(subset=<column k>)`: a row is dropped when an earlier row has the same key. */
  function DropDuplicateKeys(rows: seq<seq<Cell>>, k: nat): (r: seq<seq<Cell>>)
    requires Keyed(rows, k)
    ensures Keyed(r, k) && |r| <= |rows|
    ensures forall i :: 0 <= i < |r| ==> r[i] in rows
    decreases |rows|
  {
    if rows == [] then []
    else
      var kept := DropDuplicateKeys(rows[..|rows| - 1], k);
      var last := rows[|rows| - 1];
      if FirstWithKey(kept, k, last[k]) < |kept| then kept else kept + [last]
  }

  /** After dropping, no two rows share a key. */
  lemma {:induction false} DropDuplicateKeysUnique(rows: seq<seq<Cell>>, k: nat)
    requires Keyed(rows, k)
    ensures UniqueKeys(DropDuplicateKeys(rows, k), k)
    decreases |rows|
  {
    if rows != [] {
      var init := rows[..|rows| - 1];
      var last := rows[|rows| - 1];
      var kept := DropDuplicateKeys(init, k);
      DropDuplicateKeysUnique(init, k);
      if FirstWithKey(kept, k, last[k]) == |kept| {
        var r := kept + [last];
        assert DropDuplicateKeys(rows, k) == r;
        forall i, j | 0 <= i < j < |r| ensures r[i][k] != r[j][k] {
          if j == |kept| {
            assert r[i] == kept[i];
          } else {
            assert r[i] == kept[i] && r[j] == kept[j];
          }
        }
      } else {
        assert DropDuplicateKeys(rows, k) == kept;
      }
    }
  }

  /** Dropping keeps every key: a key occurs among the kept rows exactly when it occurs at all. */
  lemma {:induction false} DropDuplicateKeysKeys(rows: seq<seq<Cell>>, k: nat, c: Cell)
    requires Keyed(rows, k)
    ensures var r := DropDuplicateKeys(rows, k);
            FirstWithKey(r, k, c) < |r| <==> FirstWithKey(rows, k, c) < |rows|
    decreases |rows|
  {
    if rows != [] {
      var init := rows[..|rows| - 1];
      var last := rows[|rows| - 1];
      var kept := DropDuplicateKeys(init, k);
      assert rows == init + [last];
      DropDuplicateKeysKeys(init, k, c);
      DropDuplicateKeysKeys(init, k, last[k]);
      FirstIndexSnoc(init, last, HasKey(k, c));
      FirstIndexSnoc(kept, last, HasKey(k, c));
    }
  }

  /** The first row with a key that already occurs stays the first when a row is added at the end. */
  lemma FirstWithKeySnoc(init: seq<seq<Cell>>, last: seq<Cell>, k: nat, c: Cell)
    requires FirstWithKey(init, k, c) < |init|
    ensures FirstWithKey(init + [last], k, c) == FirstWithKey(init, k, c)
    ensures (init + [last])[FirstWithKey(init, k, c)] == init[FirstWithKey(init, k, c)]
  {
    FirstIndexSnoc(init, last, HasKey(k, c));
  }

  /** A key that does not occur yet is first found in a row added at the end. */
  lemma FirstWithKeyNew(init: seq<seq<Cell>>, last: seq<Cell>, k: nat)
    requires k < |last| && FirstWithKey(init, k, last[k]) == |init|
    ensures FirstWithKey(init + [last], k, last[k]) == |init|
  {
    FirstIndexSnoc(init, last, HasKey(k, last[k]));
  }

  /** Looking a key up among the de-duplicated rows finds it exactly when the rows have it, and
      finds the first row that has it. */
  lemma DropDuplicateKeysLookup(rows: seq<seq<Cell>>, k: nat, c: Cell)
    requires Keyed(rows, k)
    ensures var d := DropDuplicateKeys(rows, k);
            && (FirstWithKey(d, k, c) < |d| <==> FirstWithKey(rows, k, c) < |rows|)
            && (FirstWithKey(d, k, c) < |d| ==> d[FirstWithKey(d, k, c)] == rows[FirstWithKey(rows, k, c)])
  {
    DropDuplicateKeysKeys(rows, k, c);
    DropDuplicateKeysFirst(rows, k);
  }

  /** Rows that were first with their keys stay first when a row is added at the end. */
  lemma FirstOfKeysSnoc(r: seq<seq<Cell>>, init: seq<seq<Cell>>, last: seq<Cell>, k: nat)
    requires Keyed(r, k) && FirstOfKeys(r, init, k)
    ensures FirstOfKeys(r, init + [last], k)
  {
    forall j | 0 <= j < |r|
      ensures FirstWithKey(init + [last], k, r[j][k]) < |init + [last]|
      ensures r[j] == (init + [last])[FirstWithKey(init + [last], k, r[j][k])]
    {
      FirstWithKeySnoc(init, last, k, r[j][k]);
    }
  }

  /** A row whose key is new is the first with it. */
  lemma FirstOfKeysAppend(r: seq<seq<Cell>>, rows: seq<seq<Cell>>, last: seq<Cell>, k: nat)
    requires Keyed(r, k) && k < |last| && FirstOfKeys(r, rows, k)
    requires FirstWithKey(rows, k, last[k]) < |rows| && rows[FirstWithKey(rows, k, last[k])] == last
    ensures FirstOfKeys(r + [last], rows, k)
  {
    var r2 := r + [last];
    forall j | 0 <= j < |r2|
      ensures FirstWithKey(rows, k, r2[j][k]) < |rows| && r2[j] == rows[FirstWithKey(rows, k, r2[j][k])]
    {
      if j < |r| {
        assert r2[j] == r[j];
      }
    }
  }

  /** Each kept row is the first row that has its key. */
  lemma {:induction false} DropDuplicateKeysFirst(rows: seq<seq<Cell>>, k: nat)
    requires Keyed(rows, k)
    ensures FirstOfKeys(DropDuplicateKeys(rows, k), rows, k)
    decreases |rows|
  {
    if rows != [] {
      var init := rows[..|rows| - 1];
      var last := rows[|rows| - 1];
      var kept := DropDuplicateKeys(init, k);
      assert rows == init + [last];
      DropDuplicateKeysFirst(init, k);
      FirstOfKeysSnoc(kept, init, last, k);
      if FirstWithKey(kept, k, last[k]) == |kept| {
        DropDuplicateKeysKeys(init, k, last[k]);
        FirstWithKeyNew(init, last, k);
        assert rows[|init|] == last;
        FirstOfKeysAppend(kept, rows, last, k);
        assert DropDuplicateKeys(rows, k) == kept + [last];
      } else {
        assert DropDuplicateKeys(rows, k) == kept;
      }
    }
  }

  // ---------------------------------------------------------------------------
  // A frame that a caller holds and that a function mutates in place
  // ---------------------------------------------------------------------------

  /** A DataFrame object: its column labels and rows change under `df[name] = ...`. */
  class Frame {
    var cols: seq<string>
    var rows: seq<seq<Cell>>

    /** The frame's current contents as a value. */
    function Contents(): Table
      reads this
    {
      Table(cols, rows)
    }

    constructor (t: Table)
      ensures Contents() == t
    {
      cols := t.cols;
      rows := t.rows;
    }

    /** `df[name] = values`, in place. */
    method Assign(name: string, values: seq<Cell>)
      requires WellFormed(Contents()) && |values| == |rows|
      modifies this
      ensures Contents() == SetColumn(old(Contents()), name, values)
    {
      var t := SetColumn(Table(cols, rows), name, values);
      cols := t.cols;
      rows := t.rows;
    }
  }
}
