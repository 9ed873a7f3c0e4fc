/** Column-label normalisation: raw-duplicate repair (`_dedup_columns`), case-insensitive alias
    renaming with first-writer-wins (`_normalise_cols`) and the final numeric-suffix pass. */
module Columns {
  import opened Strings
  import opened Tables

  // ---------------------------------------------------------------------------
  // Numbering repeated labels
  // ---------------------------------------------------------------------------

  /** Which occurrence of its label `cols[i]` is, counting from 1. */
  function Occurrence(cols: seq<string>, i: nat): (k: nat)
    requires i < |cols|
    ensures k >= 1
  {
    assert cols[i] in multiset(cols[..i + 1]) by { assert cols[..i + 1][i] == cols[i]; }
    Count(cols[..i + 1], cols[i])
  }

  /** The label the numbering pass gives position `i`: the first occurrence keeps its label,
      the k-th (k >= 2) becomes `label + sep + str(k)`. */
  function NumberedAt(cols: seq<string>, sep: string, i: nat): string
    requires i < |cols|
  {
    var k := Occurrence(cols, i);
    if k == 1 then cols[i] else cols[i] + sep + NatToString(k)
  }

  /** The numbering pass over a whole label list. */
  function Numbered(cols: seq<string>, sep: string): (r: seq<string>)
    ensures |r| == |cols|
    ensures forall i :: 0 <= i < |cols| ==> r[i] == NumberedAt(cols, sep, i)
  {
    seq(|cols|, i requires 0 <= i < |cols| => NumberedAt(cols, sep, i))
  }

  /** The `seen` dictionary after scanning `s`: how often each label occurred. */
  function Tally(s: seq<string>): map<string, nat> {
    if s == [] then map[]
    else
      var t := Tally(s[..|s| - 1]);
      var x := s[|s| - 1];
      t[x := if x in t then t[x] + 1 else 1]
  }

  lemma {:induction false} TallyCount(s: seq<string>, x: string)
    ensures x in Tally(s) <==> Count(s, x) > 0
    ensures x in Tally(s) ==> Tally(s)[x] == Count(s, x)
  {
    if s != [] {
      var init := s[..|s| - 1];
      assert s == init + [s[|s| - 1]];
      TallyCount(init, x);
    }
  }

  /** One turn of the numbering loop, stated on the loop's own `seen` dictionary. */
  lemma NumberStep(cols: seq<string>, sep: string, k: nat, seen: map<string, nat>)
    requires k < |cols| && seen == Tally(cols[..k])
    ensures var c := cols[k];
            && Tally(cols[..k + 1]) == seen[c := if c in seen then seen[c] + 1 else 1]
            && NumberedAt(cols, sep, k) == if c in seen then c + sep + NatToString(seen[c] + 1) else c
  {
    TallyStep(cols, k, seen);
    OccurrenceStep(cols, k, seen);
  }

  lemma TallyStep(cols: seq<string>, k: nat, seen: map<string, nat>)
    requires k < |cols| && seen == Tally(cols[..k])
    ensures var c := cols[k]; Tally(cols[..k + 1]) == seen[c := if c in seen then seen[c] + 1 else 1]
  {
    var s := cols[..k + 1];
    assert s[..|s| - 1] == cols[..k];
    assert s[|s| - 1] == cols[k];
  }

  lemma OccurrenceStep(cols: seq<string>, k: nat, seen: map<string, nat>)
    requires k < |cols| && seen == Tally(cols[..k])
    ensures var c := cols[k]; Occurrence(cols, k) == if c in seen then seen[c] + 1 else 1
    ensures cols[k] in seen ==> seen[cols[k]] > 0
  {
    var c := cols[k];
    TallyCount(cols[..k], c);
    assert cols[..k + 1] == cols[..k] + [c];
  }

  /** The numbering pass, as the source runs it: a scan that keeps a `seen` count per label. */
  method NumberLabels(cols: seq<string>, sep: string) returns (out: seq<string>)
    ensures out == Numbered(cols, sep)
  {
    var seen: map<string, nat> := map[];
    out := [];
    var k := 0;
    while k < |cols|
      invariant 0 <= k <= |cols|
      invariant |out| == k
      invariant forall i :: 0 <= i < k ==> out[i] == NumberedAt(cols, sep, i)
      invariant seen == Tally(cols[..k])
    {
      var c := cols[k];
      NumberStep(cols, sep, k, seen);
      if c in seen {
        seen := seen[c := seen[c] + 1];
        out := out + [c + sep + NatToString(seen[c])];
      } else {
        seen := seen[c := 1];
        out := out + [c];
      }
      k := k + 1;
    }
  }

  /** A later repeat of a label has a strictly larger occurrence number. */
  lemma OccurrenceGrows(cols: seq<string>, i: nat, j: nat)
    requires i < j < |cols| && cols[i] == cols[j]
    ensures Occurrence(cols, i) < Occurrence(cols, j)
  {
    assert cols[..j + 1] == cols[..i + 1] + cols[i + 1..j + 1];
    assert cols[i + 1..j + 1][j - i - 1] == cols[j];
  }

  /** A list whose labels are already distinct comes back unchanged. */
  lemma NumberedOfDistinct(cols: seq<string>, sep: string)
    requires NoDuplicates(cols)
    ensures Numbered(cols, sep) == cols
  {
    forall i | 0 <= i < |cols| ensures Occurrence(cols, i) == 1 {
      var prefix := cols[..i + 1];
      forall a, b | 0 <= a < b < |prefix| ensures !(prefix[a] == cols[i] && prefix[b] == cols[i]) {
        assert prefix[a] == cols[a] && prefix[b] == cols[b];
      }
      CountAtMostOne(prefix, cols[i]);
    }
  }

  /** Two positions of the numbering pass never receive the same label, provided no input label
      already looks like `x + sep + digits`. */
  lemma NumberedAtDistinct(cols: seq<string>, sep: string, i: nat, j: nat)
    requires Separator(sep)
    requires forall n :: 0 <= n < |cols| ==> !HasTag(cols[n], sep)
    requires i < j < |cols|
    ensures NumberedAt(cols, sep, i) != NumberedAt(cols, sep, j)
  {
    var ki, kj := Occurrence(cols, i), Occurrence(cols, j);
    if cols[i] == cols[j] {
      OccurrenceGrows(cols, i, j);
      if ki > 1 && cols[i] + sep + NatToString(ki) == cols[j] + sep + NatToString(kj) {
        TagInjective(cols[i], cols[j], sep, NatToString(ki), NatToString(kj));
        NatToStringInjective(ki, kj);
      }
    } else {
      if ki > 1 { TaggedHasTag(cols[i], sep, ki); }
      if kj > 1 { TaggedHasTag(cols[j], sep, kj); }
      if ki > 1 && kj > 1 && cols[i] + sep + NatToString(ki) == cols[j] + sep + NatToString(kj) {
        TagInjective(cols[i], cols[j], sep, NatToString(ki), NatToString(kj));
      }
    }
  }

  /** The numbering pass yields distinct labels when no input label already carries a tag of its separator. */
  lemma NumberedDistinct(cols: seq<string>, sep: string)
    requires Separator(sep)
    requires forall n :: 0 <= n < |cols| ==> !HasTag(cols[n], sep)
    ensures NoDuplicates(Numbered(cols, sep))
  {
    forall i, j | 0 <= i < j < |cols| ensures Numbered(cols, sep)[i] != Numbered(cols, sep)[j] {
      NumberedAtDistinct(cols, sep, i, j);
    }
  }

  /** A label without a tag survives the numbering pass at most once, whatever the input. */
  lemma NumberedUntaggedOnce(cols: seq<string>, sep: string, x: string)
    requires Separator(sep) && !HasTag(x, sep)
    ensures Count(Numbered(cols, sep), x) <= 1
  {
    var r := Numbered(cols, sep);
    forall i, j | 0 <= i < j < |r| ensures !(r[i] == x && r[j] == x) {
      if Occurrence(cols, i) > 1 { TaggedHasTag(cols[i], sep, Occurrence(cols, i)); }
      if Occurrence(cols, j) > 1 { TaggedHasTag(cols[j], sep, Occurrence(cols, j)); }
      if cols[i] == cols[j] { OccurrenceGrows(cols, i, j); }
    }
    CountAtMostOne(r, x);
  }

  // ---------------------------------------------------------------------------
  // Step 1 and 2: trim and de-duplicate raw labels (`_dedup_columns`)
  // ---------------------------------------------------------------------------

  const DupSeparator: string := "_dup"

  function TrimAll(cols: seq<string>): (r: seq<string>)
    ensures |r| == |cols| && forall i :: 0 <= i < |cols| ==> r[i] == Trim(cols[i])
  {
    seq(|cols|, i requires 0 <= i < |cols| => Trim(cols[i]))
  }

  /** The labels `_dedup_columns` gives a frame. */
  function Dedup(cols: seq<string>): (r: seq<string>)
    ensures |r| == |cols|
  {
    Numbered(TrimAll(cols), DupSeparator)
  }

  /** `_dedup_columns` on the label list: trim every label, then number the repeats `_dup2`, `_dup3`, ...
      The first occurrence of each trimmed label keeps it; its k-th occurrence becomes `label_dupk`. */
  method DedupColumns(cols: seq<string>) returns (out: seq<string>)
    ensures |out| == |cols|
    ensures forall i :: 0 <= i < |cols| ==>
              var k := Occurrence(TrimAll(cols), i);
              out[i] == if k == 1 then Trim(cols[i]) else Trim(cols[i]) + "_dup" + NatToString(k)
    ensures out == Dedup(cols)
  {
    out := NumberLabels(TrimAll(cols), DupSeparator);
  }

  /** After de-duplication the labels are distinct unless a raw label already ended in `_dup<n>`. */
  lemma DedupDistinct(cols: seq<string>)
    requires forall n :: 0 <= n < |cols| ==> !HasTag(Trim(cols[n]), DupSeparator)
    ensures NoDuplicates(Dedup(cols))
  {
    NumberedDistinct(TrimAll(cols), DupSeparator);
  }

  // ---------------------------------------------------------------------------
  // Step 3 and 4: alias lookup with first-writer-wins
  // ---------------------------------------------------------------------------

  /** The suffix-stripping loop over `_dup2` .. `_dup9`, starting at `n`. */
  function StripDupFrom(key: string, n: nat): string
    requires n >= 2
    decreases 10 - n
  {
    if n > 9 then key
    else
      var tag := DupSeparator + [DigitChar(n)];
      if EndsWith(key, tag) then key[..|key| - |tag|] else StripDupFrom(key, n + 1)
  }

  /** The lookup key with a `_dup2` .. `_dup9` suffix removed. */
  function StripDupTag(key: string): string {
    StripDupFrom(key, 2)
  }

  lemma {:induction false} StripDupFromTagged(x: string, k: nat, n: nat)
    requires 2 <= n <= k <= 9
    ensures StripDupFrom(x + DupSeparator + [DigitChar(k)], n) == x
    decreases 10 - n
  {
    var key := x + DupSeparator + [DigitChar(k)];
    var tag := DupSeparator + [DigitChar(n)];
    if n < k {
      assert key[|key| - 1] != tag[|tag| - 1];
      StripDupFromTagged(x, k, n + 1);
    } else {
      assert key[|key| - |tag|..] == tag;
      assert key[..|key| - |tag|] == x;
    }
  }

  /** A `_dup2` .. `_dup9` duplicate is looked up under the key of the label it repeats. */
  lemma StripDupTagOfDuplicate(x: string, k: nat)
    requires 2 <= k <= 9
    ensures StripDupTag(x + DupSeparator + NatToString(k)) == x
  {
    assert NatToString(k) == [DigitChar(k)];
    StripDupFromTagged(x, k, 2);
  }

  lemma {:induction false} StripDupFromMultiDigit(key: string, n: nat)
    requires n >= 2 && TrailingDigits(key) >= 2
    ensures StripDupFrom(key, n) == key
    decreases 10 - n
  {
    if n <= 9 {
      StripDupFromMultiDigit(key, n + 1);
    }
  }

  /** A tenth or later repeat keeps its suffix, so it is looked up under a key no alias map holds. */
  lemma StripDupTagKeepsLongTags(x: string, k: nat)
    requires k >= 10
    ensures StripDupTag(x + DupSeparator + NatToString(k)) == x + DupSeparator + NatToString(k)
  {
    TrailingDigitsOfTagged(x, DupSeparator, NatToString(k));
    assert |NatToString(k)| >= 2;
    StripDupFromMultiDigit(x + DupSeparator + NatToString(k), 2);
  }

  /** The canonical name a label resolves to through `alias_map`, or "" when it resolves to nothing:
      the lower-cased label first, then the lower-cased label without its `_dupN` suffix. */
  function Target(m: map<string, string>, name: string): (t: string)
    ensures t != "" ==> t in m.Values
  {
    var key := Lower(Trim(name));
    var base := StripDupTag(key);
    if key in m && m[key] != "" then m[key] else if base in m then m[base] else ""
  }

  /** A label whose key is in the map with a non-empty name resolves to that name. */
  lemma TargetByKey(m: map<string, string>, name: string, key: string)
    requires key == Lower(Trim(name)) && key in m && m[key] != ""
    ensures Target(m, name) == m[key]
  {
  }

  /** A label whose key is not in the map falls back to the stripped key. */
  lemma TargetByBase(m: map<string, string>, name: string, key: string, base: string)
    requires key == Lower(Trim(name)) && key !in m && base == StripDupTag(key)
    ensures Target(m, name) == if base in m then m[base] else ""
  {
  }

  /** The lookup ignores case and surrounding whitespace: labels that agree once stripped and
      lower-cased resolve to the same name. */
  lemma TargetCaseInsensitive(m: map<string, string>, a: string, b: string)
    requires Lower(Trim(a)) == Lower(Trim(b))
    ensures Target(m, a) == Target(m, b)
  {
  }

  /** A label resolves exactly as its own key does, so resolving an already normalised key is stable. */
  lemma TargetOfKey(m: map<string, string>, name: string)
    ensures Target(m, Lower(Trim(name))) == Target(m, name)
  {
    var stripped := Trim(name);
    TrimLower(stripped);
    LowerIdempotent(stripped);
    TargetCaseInsensitive(m, Lower(stripped), name);
  }

  /** Keys whose next-to-last character is not the `p` of `_dup<digit>` are looked up unchanged. */
  lemma {:induction false} StripDupFromNoop(key: string, n: nat)
    requires n >= 2
    requires |key| < 2 || key[|key| - 2] != 'p'
    ensures StripDupFrom(key, n) == key
    decreases 10 - n
  {
    if n <= 9 {
      var tag := DupSeparator + [DigitChar(n)];
      assert tag[3] == 'p';
      StripDupFromNoop(key, n + 1);
    }
  }

  /** The canonical name of every column, in column order. */
  function Targets(cols: seq<string>, m: map<string, string>): (ts: seq<string>)
    ensures |ts| == |cols|
  {
    if cols == [] then [] else [Target(m, cols[0])] + Targets(cols[1..], m)
  }

  lemma {:induction false} TargetsAt(cols: seq<string>, m: map<string, string>, i: nat)
    requires i < |cols|
    ensures Targets(cols, m)[i] == Target(m, cols[i])
  {
    var ts := Targets(cols, m);
    var rest := cols[1..];
    assert ts == [Target(m, cols[0])] + Targets(rest, m);
    if i > 0 {
      TargetsAt(rest, m, i - 1);
      assert rest[i - 1] == cols[i];
    }
  }

  /** Column `i` is the first, in column order, to resolve to its canonical name. */
  predicate IsWinner(cols: seq<string>, m: map<string, string>, i: nat)
    requires i < |cols|
  {
    var ts := Targets(cols, m);
    ts[i] != "" && forall j :: 0 <= j < i ==> ts[j] != ts[i]
  }

  /** The canonical names claimed by the first `k` columns (`target_seen`). */
  function TargetsUpTo(cols: seq<string>, m: map<string, string>, k: nat): set<string>
    requires k <= |cols|
  {
    NonEmptyLabels(Targets(cols, m)[..k])
  }

  /** The non-empty labels of a list, as a set. */
  function NonEmptyLabels(s: seq<string>): set<string> {
    set t | t in s && t != ""
  }

  lemma NonEmptyLabelsAppend(s: seq<string>, x: string)
    ensures NonEmptyLabels(s + [x]) == NonEmptyLabels(s) + (if x != "" then {x} else {})
  {
  }

  /** The rename dictionary after the first `k` columns: each winner is entered under its label. */
  function RenameUpTo(cols: seq<string>, m: map<string, string>, k: nat): map<string, string>
    requires k <= |cols|
  {
    if k == 0 then map[]
    else
      var r := RenameUpTo(cols, m, k - 1);
      if IsWinner(cols, m, k - 1) then r[cols[k - 1] := Targets(cols, m)[k - 1]] else r
  }

  /** The rename dictionary `_normalise_cols` builds. */
  function RenameMap(cols: seq<string>, m: map<string, string>): map<string, string> {
    RenameUpTo(cols, m, |cols|)
  }

  /** The labels the dictionary holds are exactly those of the winning columns. */
  lemma RenameUpToKeys(cols: seq<string>, m: map<string, string>, k: nat, c: string)
    requires k <= |cols|
    ensures c in RenameUpTo(cols, m, k) <==> exists i :: 0 <= i < k && IsWinner(cols, m, i) && cols[i] == c
  {
    if c in RenameUpTo(cols, m, k) {
      var i := KeyHasWinner(cols, m, k, c);
    }
    if exists i :: 0 <= i < k && IsWinner(cols, m, i) && cols[i] == c {
      var i :| 0 <= i < k && IsWinner(cols, m, i) && cols[i] == c;
      WinnerIsKey(cols, m, k, i);
    }
  }

  /** Every label in the dictionary belongs to a winning column. */
  lemma {:induction false} KeyHasWinner(cols: seq<string>, m: map<string, string>, k: nat, c: string) returns (i: nat)
    requires k <= |cols| && c in RenameUpTo(cols, m, k)
    ensures i < k && IsWinner(cols, m, i) && cols[i] == c
  {
    if k == 0 {
      assert false;
    }
    var n := k - 1;
    if c in RenameUpTo(cols, m, n) {
      i := KeyHasWinner(cols, m, n, c);
    } else {
      AddedKeyWins(cols, m, k, c);
      i := n;
    }
  }

  /** A label that column `k - 1` adds to the dictionary is that column's, and the column wins. */
  lemma AddedKeyWins(cols: seq<string>, m: map<string, string>, k: nat, c: string)
    requires 0 < k <= |cols| && c in RenameUpTo(cols, m, k) && c !in RenameUpTo(cols, m, k - 1)
    ensures IsWinner(cols, m, k - 1) && cols[k - 1] == c
  {
    NewKey(RenameUpTo(cols, m, k - 1), RenameUpTo(cols, m, k), IsWinner(cols, m, k - 1), cols[k - 1], Targets(cols, m)[k - 1], c);
  }

  /** A key that a conditional insertion adds is the inserted one, and the insertion took place. */
  lemma NewKey(prev: map<string, string>, r: map<string, string>, w: bool, name: string, t: string, c: string)
    requires r == (if w then prev[name := t] else prev)
    requires c in r && c !in prev
    ensures w && name == c
  {
  }

  /** The label of every winning column is in the dictionary. */
  lemma {:induction false} WinnerIsKey(cols: seq<string>, m: map<string, string>, k: nat, i: nat)
    requires i < k <= |cols| && IsWinner(cols, m, i)
    ensures cols[i] in RenameUpTo(cols, m, k)
  {
    if i < k - 1 {
      WinnerIsKey(cols, m, k - 1, i);
    }
  }

  /** Each label in the dictionary maps to its canonical name. */
  lemma {:induction false} RenameUpToValues(cols: seq<string>, m: map<string, string>, k: nat, c: string)
    requires k <= |cols| && c in RenameUpTo(cols, m, k)
    ensures RenameUpTo(cols, m, k)[c] == Target(m, c)
  {
    if k == 0 {
      assert false;
    }
    var n := k - 1;
    if c != cols[n] || !IsWinner(cols, m, n) {
      RenameUpToValues(cols, m, n, c);
    } else {
      TargetsAt(cols, m, n);
    }
  }

  lemma RenameUpToSpec(cols: seq<string>, m: map<string, string>, k: nat)
    requires k <= |cols|
    ensures forall c :: c in RenameUpTo(cols, m, k) <==> exists i :: 0 <= i < k && IsWinner(cols, m, i) && cols[i] == c
    ensures forall c | c in RenameUpTo(cols, m, k) :: RenameUpTo(cols, m, k)[c] == Target(m, c)
  {
    forall c ensures c in RenameUpTo(cols, m, k) <==> exists i :: 0 <= i < k && IsWinner(cols, m, i) && cols[i] == c {
      RenameUpToKeys(cols, m, k, c);
    }
    forall c | c in RenameUpTo(cols, m, k) ensures RenameUpTo(cols, m, k)[c] == Target(m, c) {
      RenameUpToValues(cols, m, k, c);
    }
  }

  /** Column `k` wins exactly when it resolves to a name that no earlier column claimed. */
  lemma WinnerStep(cols: seq<string>, m: map<string, string>, k: nat)
    requires k < |cols|
    ensures var t := Targets(cols, m)[k];
            IsWinner(cols, m, k) == (t != "" && t !in TargetsUpTo(cols, m, k))
  {
    var ts := Targets(cols, m);
    if ts[k] != "" && ts[k] in TargetsUpTo(cols, m, k) {
      var j :| 0 <= j < k && ts[..k][j] == ts[k];
      assert ts[j] == ts[k];
    }
  }

  lemma TargetsStep(cols: seq<string>, m: map<string, string>, k: nat)
    requires k < |cols|
    ensures var t := Targets(cols, m)[k];
            TargetsUpTo(cols, m, k + 1) == TargetsUpTo(cols, m, k) + (if t != "" then {t} else {})
  {
    var ts := Targets(cols, m);
    assert ts[..k + 1] == ts[..k] + [ts[k]];
    NonEmptyLabelsAppend(ts[..k], ts[k]);
  }

  /** One turn of the rename loop, stated on the loop's own variables. */
  lemma RenameLoopStep(cols: seq<string>, m: map<string, string>, k: nat,
                       rename: map<string, string>, seen: set<string>)
    requires k < |cols|
    requires rename == RenameUpTo(cols, m, k) && seen == TargetsUpTo(cols, m, k)
    ensures var t := Target(m, cols[k]);
            && RenameUpTo(cols, m, k + 1) == (if t != "" && t !in seen then rename[cols[k] := t] else rename)
            && TargetsUpTo(cols, m, k + 1) == (if t != "" && t !in seen then seen + {t} else seen)
  {
    TargetsAt(cols, m, k);
    WinnerStep(cols, m, k);
    TargetsStep(cols, m, k);
  }

  /** The rename loop of `_normalise_cols`: a column is entered under its canonical name only if
      no earlier column claimed that name; `seen` ends as the set of all names claimed. */
  method BuildRename(cols: seq<string>, m: map<string, string>) returns (rename: map<string, string>, seen: set<string>)
    ensures rename == RenameMap(cols, m)
    ensures seen == TargetsUpTo(cols, m, |cols|)
  {
    rename, seen := map[], {};
    var k := 0;
    while k < |cols|
      invariant 0 <= k <= |cols|
      invariant rename == RenameUpTo(cols, m, k)
      invariant seen == TargetsUpTo(cols, m, k)
    {
      var c := cols[k];
      var target := Target(m, c);
      RenameLoopStep(cols, m, k, rename, seen);
      if target != "" {
        if target !in seen {
          rename := rename[c := target];
          seen := seen + {target};
        }
      }
      k := k + 1;
    }
  }

  /** `df.rename(columns=rename)`: every column whose label is a key is renamed. */
  function ApplyRename(cols: seq<string>, rename: map<string, string>): (r: seq<string>)
    ensures |r| == |cols|
    ensures forall i :: 0 <= i < |cols| ==> r[i] == if cols[i] in rename then rename[cols[i]] else cols[i]
  {
    seq(|cols|, i requires 0 <= i < |cols| => if cols[i] in rename then rename[cols[i]] else cols[i])
  }

  /** First writer wins: on distinct labels, a column is renamed to its canonical name exactly when
      no earlier column resolved to the same name; every other column keeps its label. */
  lemma FirstWriterWins(cols: seq<string>, m: map<string, string>)
    requires NoDuplicates(cols)
    ensures forall i :: 0 <= i < |cols| ==>
              ApplyRename(cols, RenameMap(cols, m))[i] == if IsWinner(cols, m, i) then Target(m, cols[i]) else cols[i]
  {
    RenameUpToSpec(cols, m, |cols|);
    forall i | 0 <= i < |cols|
      ensures cols[i] in RenameMap(cols, m) <==> IsWinner(cols, m, i)
    {
      if cols[i] in RenameMap(cols, m) {
        var j :| 0 <= j < |cols| && IsWinner(cols, m, j) && cols[j] == cols[i];
        assert j == i;
      }
    }
  }

  /** No two columns are renamed to the same canonical name. */
  lemma WinnersClaimDistinctNames(cols: seq<string>, m: map<string, string>, i: nat, j: nat)
    requires i < j < |cols| && IsWinner(cols, m, i) && IsWinner(cols, m, j)
    ensures Target(m, cols[i]) != Target(m, cols[j])
  {
    TargetsAt(cols, m, i);
    TargetsAt(cols, m, j);
  }

  // ---------------------------------------------------------------------------
  // Step 5: the final numeric-suffix pass
  // ---------------------------------------------------------------------------

  const FinalSeparator: string := "_"

  /** The final safety pass: only when a label repeats, number the repeats `_2`, `_3`, ... */
  function FinalPass(cols: seq<string>): (r: seq<string>)
    ensures |r| == |cols|
  {
    if NoDuplicates(cols) then cols else Numbered(cols, FinalSeparator)
  }

  /** Numbering a list that has no repeats changes nothing, so the guard only saves work. */
  lemma FinalPassIsNumbering(cols: seq<string>)
    ensures FinalPass(cols) == Numbered(cols, FinalSeparator)
  {
    if NoDuplicates(cols) { NumberedOfDistinct(cols, FinalSeparator); }
  }

  /** After the final pass a label that does not end in `_<digits>` names at most one column. */
  lemma FinalPassUntaggedOnce(cols: seq<string>, x: string)
    requires !HasTag(x, FinalSeparator)
    ensures Count(FinalPass(cols), x) <= 1
  {
    FinalPassIsNumbering(cols);
    NumberedUntaggedOnce(cols, FinalSeparator, x);
  }

  // ---------------------------------------------------------------------------
  // The whole of `_normalise_cols`
  // ---------------------------------------------------------------------------

  /** The labels `_normalise_cols(df, m)` leaves on a frame whose labels are `cols`. */
  function NormaliseCols(cols: seq<string>, m: map<string, string>): (r: seq<string>)
    ensures |r| == |cols|
  {
    var d := Dedup(cols);
    FinalPass(ApplyRename(d, RenameMap(d, m)))
  }

  /** `_normalise_cols` on the label list, step by step as the source does it. */
  method NormaliseColumns(cols: seq<string>, m: map<string, string>) returns (out: seq<string>)
    ensures out == NormaliseCols(cols, m)
    ensures |out| == |cols|
  {
    var d := DedupColumns(cols);
    var rename, _ := BuildRename(d, m);
    var renamed := ApplyRename(d, rename);
    if !NoDuplicates(renamed) {
      out := NumberLabels(renamed, FinalSeparator);
    } else {
      out := renamed;
    }
  }

  /** Every label after de-duplication and renaming is free of `_<digits>` tags if the raw labels
      and the canonical names are. */
  lemma RenamedUntagged(cols: seq<string>, m: map<string, string>)
    requires forall n :: 0 <= n < |cols| ==> !HasTag(Trim(cols[n]), FinalSeparator)
    requires forall t | t in m.Values :: !HasTag(t, FinalSeparator)
    ensures var d := Dedup(cols);
            forall n :: 0 <= n < |d| ==> !HasTag(ApplyRename(d, RenameMap(d, m))[n], FinalSeparator)
  {
    var d := Dedup(cols);
    var rename := RenameMap(d, m);
    RenameUpToSpec(d, m, |d|);
    forall n | 0 <= n < |d| ensures !HasTag(ApplyRename(d, rename)[n], FinalSeparator) {
      var k := Occurrence(TrimAll(cols), n);
      if k > 1 {
        TaggedLacksOtherTag(Trim(cols[n]), DupSeparator, k, FinalSeparator);
      }
      if d[n] in rename {
        assert rename[d[n]] == Target(m, d[n]);
      }
    }
  }

  /** The docstring's promise: the resulting column index is unique, provided no raw label and no
      canonical name already ends in `_<digits>`. */
  lemma NormalisedDistinct(cols: seq<string>, m: map<string, string>)
    requires forall n :: 0 <= n < |cols| ==> !HasTag(Trim(cols[n]), FinalSeparator)
    requires forall t | t in m.Values :: !HasTag(t, FinalSeparator)
    ensures NoDuplicates(NormaliseCols(cols, m))
  {
    var d := Dedup(cols);
    var renamed := ApplyRename(d, RenameMap(d, m));
    RenamedUntagged(cols, m);
    if !NoDuplicates(renamed) {
      NumberedDistinct(renamed, FinalSeparator);
    }
  }

  /** Whatever the input, a name that does not end in `_<digits>` (every canonical name) labels
      at most one column after normalisation. */
  lemma NormalisedUntaggedOnce(cols: seq<string>, m: map<string, string>, x: string)
    requires !HasTag(x, FinalSeparator)
    ensures Count(NormaliseCols(cols, m), x) <= 1
  {
    var d := Dedup(cols);
    FinalPassUntaggedOnce(ApplyRename(d, RenameMap(d, m)), x);
  }

  // ---------------------------------------------------------------------------
  // Why the uniqueness promise needs its precondition
  // ---------------------------------------------------------------------------

  lemma {:induction false} DistinctTriple(x: string, y: string, z: string)
    requires x != y && y != z && x != z
    ensures NoDuplicates([x, y, z])
  {
  }

  lemma RenameOfTriple(cols: seq<string>, m: map<string, string>, x: string)
    requires |cols| == 3 && Targets(cols, m) == ["", x, ""] && x != ""
    ensures RenameMap(cols, m) == map[cols[1] := x]
  {
    var ts := Targets(cols, m);
    assert !IsWinner(cols, m, 0);
    assert IsWinner(cols, m, 1) by { assert ts[0] != ts[1]; }
    assert !IsWinner(cols, m, 2) by { assert ts[2] == ""; }
    assert RenameUpTo(cols, m, 1) == map[];
    assert RenameUpTo(cols, m, 2) == map[cols[1] := x];
    assert RenameUpTo(cols, m, 3) == map[cols[1] := x];
  }

  lemma FinalPassOfRepeat(x: string, z: string)
    requires z == x + FinalSeparator + "2"
    ensures FinalPass([x, x, z]) == [x, z, z]
  {
    var r := [x, x, z];
    assert !NoDuplicates(r) by { assert r[0] == r[1]; }
    assert r[..1] == [x] && r[..2] == [x, x];
    assert Occurrence(r, 0) == 1;
    assert Occurrence(r, 1) == 2;
    assert z != x by { assert |z| == |x| + 2; }
    assert Occurrence(r, 2) == 1 by { assert r[..3] == r; }
    assert NatToString(2) == "2";
  }

  lemma SeqOfThree<T>(s: seq<T>, a: T, b: T, c: T)
    requires |s| == 3 && s[0] == a && s[1] == b && s[2] == c
    ensures s == [a, b, c]
  {
  }

  lemma TrimAllOfTrimmed(x: string, y: string, z: string)
    requires Trim(x) == x && Trim(y) == y && Trim(z) == z
    ensures TrimAll([x, y, z]) == [x, y, z]
  {
    var t := TrimAll([x, y, z]);
    assert t[0] == Trim(x) && t[1] == Trim(y) && t[2] == Trim(z);
    assert t[0] == x && t[1] == y && t[2] == z;
    SeqOfThree(t, x, y, z);
  }

  lemma ApplyRenameOfTriple(x: string, y: string, z: string)
    requires x != y && y != z
    ensures ApplyRename([x, y, z], map[y := x]) == [x, x, z]
  {
  }

  lemma DedupOfTriple(x: string, y: string, z: string)
    requires x != y && y != z && x != z
    requires Trim(x) == x && Trim(y) == y && Trim(z) == z
    ensures Dedup([x, y, z]) == [x, y, z]
  {
    DistinctTriple(x, y, z);
    TrimAllOfTrimmed(x, y, z);
    NumberedOfDistinct([x, y, z], DupSeparator);
  }

  lemma TargetsOfTriple(m: map<string, string>, x: string, y: string, z: string)
    requires Target(m, x) == "" && Target(m, y) == x && Target(m, z) == ""
    ensures Targets([x, y, z], m) == ["", x, ""]
  {
    var cols := [x, y, z];
    TargetsAt(cols, m, 0);
    TargetsAt(cols, m, 1);
    TargetsAt(cols, m, 2);
    var ts := Targets(cols, m);
    assert ts[0] == Target(m, x) && ts[1] == Target(m, y) && ts[2] == Target(m, z);
    assert ts[0] == "" && ts[1] == x && ts[2] == "";
    SeqOfThree(ts, "", x, "");
  }

  /** A raw label that already looks like a repeat (`x_2`) collides with the repeat the final pass
      makes of `x` once another column is renamed to `x`: the result still has a duplicate. */
  lemma DuplicateSurvives(m: map<string, string>, x: string, y: string, z: string)
    requires z == x + "_2" && x != "" && x != y && y != z
    requires Dedup([x, y, z]) == [x, y, z] && Targets([x, y, z], m) == ["", x, ""]
    ensures NormaliseCols([x, y, z], m) == [x, z, z]
    ensures !NoDuplicates(NormaliseCols([x, y, z], m))
  {
    var d := [x, y, z];
    RenameOfTriple(d, m, x);
    ApplyRenameOfTriple(x, y, z);
    var a := ApplyRename(d, RenameMap(d, m));
    assert a == [x, x, z];
    RepeatLabel(x, z);
    FinalPassOfRepeat(x, z);
    NormaliseColsVia(d, m, d, a, [x, z, z]);
    var r := NormaliseCols(d, m);
    assert r[1] == r[2];
  }

  lemma RepeatLabel(x: string, z: string)
    requires z == x + "_2"
    ensures z == x + FinalSeparator + "2"
  {
    assert FinalSeparator + "2" == "_2";
  }

  lemma NormaliseColsVia(cols: seq<string>, m: map<string, string>, d: seq<string>, a: seq<string>, r: seq<string>)
    requires Dedup(cols) == d && ApplyRename(d, RenameMap(d, m)) == a && FinalPass(a) == r
    ensures NormaliseCols(cols, m) == r
  {
  }


  // ---------------------------------------------------------------------------
  // Why normalising twice can change the labels again
  // ---------------------------------------------------------------------------

  lemma {:induction false} DistinctPair(x: string, y: string)
    requires x != y
    ensures NoDuplicates([x, y])
  {
  }

  lemma TrimAllOfPair(x: string, y: string)
    requires Trim(x) == x && Trim(y) == y
    ensures TrimAll([x, y]) == [x, y]
  {
    var t := TrimAll([x, y]);
    assert t[0] == Trim(x) && t[1] == Trim(y);
    assert t[0] == x && t[1] == y;
    SeqOfTwo(t, x, y);
  }

  lemma SeqOfTwo<T>(s: seq<T>, a: T, b: T)
    requires |s| == 2 && s[0] == a && s[1] == b
    ensures s == [a, b]
  {
  }

  lemma DedupOfPair(x: string, y: string)
    requires x != y && Trim(x) == x && Trim(y) == y
    ensures Dedup([x, y]) == [x, y]
  {
    DistinctPair(x, y);
    TrimAllOfPair(x, y);
    NumberedOfDistinct([x, y], DupSeparator);
  }

  lemma TargetsOfPair(m: map<string, string>, x: string, y: string)
    ensures Targets([x, y], m) == [Target(m, x), Target(m, y)]
  {
    TargetsAt([x, y], m, 0);
    TargetsAt([x, y], m, 1);
  }

  /** Two columns that resolve to the same name: only the first is renamed. */
  lemma RenameOfSameTarget(x: string, y: string, m: map<string, string>, t: string)
    requires x != y && t != "" && t != y && Target(m, x) == t && Target(m, y) == t
    ensures ApplyRename([x, y], RenameMap([x, y], m)) == [t, y]
  {
    var cols := [x, y];
    TargetsOfPair(m, x, y);
    assert IsWinner(cols, m, 0);
    assert !IsWinner(cols, m, 1);
    assert RenameUpTo(cols, m, 1) == map[x := t];
    assert RenameUpTo(cols, m, 2) == map[x := t];
  }

  /** A second column that resolves to the name the first already carries is renamed to it. */
  lemma RenameOfLateTarget(t: string, y: string, m: map<string, string>)
    requires t != y && t != "" && Target(m, t) == "" && Target(m, y) == t
    ensures ApplyRename([t, y], RenameMap([t, y], m)) == [t, t]
  {
    var cols := [t, y];
    TargetsOfPair(m, t, y);
    assert !IsWinner(cols, m, 0);
    assert IsWinner(cols, m, 1);
    assert RenameUpTo(cols, m, 1) == map[];
    assert RenameUpTo(cols, m, 2) == map[y := t];
  }

  lemma FinalPassOfPair(t: string)
    ensures FinalPass([t, t]) == [t, t + "_2"]
  {
    assert t + FinalSeparator + "2" == t + "_2";
    var r := [t, t];
    assert !NoDuplicates(r) by { assert r[0] == r[1]; }
    assert r[..1] == [t] && r[..2] == r;
    assert Occurrence(r, 0) == 1;
    assert Occurrence(r, 1) == 2;
    assert NatToString(2) == "2";
  }

  /** First run: the first column takes the name, the second keeps its label. */
  lemma NormaliseOnce(m: map<string, string>, x: string, y: string, t: string)
    requires x != y && t != y && t != ""
    requires Trim(x) == x && Trim(y) == y
    requires Target(m, x) == t && Target(m, y) == t
    ensures NormaliseCols([x, y], m) == [t, y]
  {
    DedupOfPair(x, y);
    RenameOfSameTarget(x, y, m, t);
    DistinctPair(t, y);
  }

  /** Second run: the first column no longer resolves, so the second takes the name too. */
  lemma NormaliseAgain(m: map<string, string>, y: string, t: string)
    requires t != y && t != ""
    requires Trim(y) == y && Trim(t) == t
    requires Target(m, y) == t && Target(m, t) == ""
    ensures NormaliseCols([t, y], m) == [t, t + "_2"]
  {
    DedupOfPair(t, y);
    RenameOfLateTarget(t, y, m);
    var d := Dedup([t, y]);
    assert NormaliseCols([t, y], m) == FinalPass(ApplyRename(d, RenameMap(d, m)));
    assert ApplyRename(d, RenameMap(d, m)) == [t, t];
    FinalPassOfPair(t);
  }

  /** Normalising is not idempotent when the canonical name is not itself a key of the map: the
      column that lost to the first one in the first run wins in the second. */
  lemma NormaliseTwice(m: map<string, string>, x: string, y: string, t: string)
    requires x != y && t != y && t != "" && y != t + "_2"
    requires Trim(x) == x && Trim(y) == y && Trim(t) == t
    requires Target(m, x) == t && Target(m, y) == t && Target(m, t) == ""
    ensures NormaliseCols(NormaliseCols([x, y], m), m) == [t, t + "_2"]
    ensures NormaliseCols(NormaliseCols([x, y], m), m) != NormaliseCols([x, y], m)
  {
    NormaliseOnce(m, x, y, t);
    NormaliseAgain(m, y, t);
    assert [t, t + "_2"][1] != [t, y][1];
  }
}
