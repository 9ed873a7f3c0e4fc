/** The Python string operations the ingestion pipeline relies on, over `seq<char>`. */
module Strings {
  import opened Outcomes

  /** Python's `str.isspace()` character set: what `str.strip()` removes. */
  predicate IsSpace(c: char) {
    ('\t' <= c <= '\r') || ('\U{1C}' <= c <= ' ') || c == '\U{85}' || c == '\U{A0}'
    || c == '\U{1680}' || ('\U{2000}' <= c <= '\U{200A}') || c == '\U{2028}' || c == '\U{2029}'
    || c == '\U{202F}' || c == '\U{205F}' || c == '\U{3000}'
  }

  function TrimLeft(s: string): (r: string)
    ensures |r| <= |s| && r == s[|s| - |r|..]
    ensures r == [] || !IsSpace(r[0])
    ensures forall i :: 0 <= i < |s| - |r| ==> IsSpace(s[i])
  {
    if s != [] && IsSpace(s[0]) then TrimLeft(s[1..]) else s
  }

  function TrimRight(s: string): (r: string)
    ensures |r| <= |s| && r == s[..|r|]
    ensures r == [] || !IsSpace(r[|r| - 1])
    ensures forall i :: |r| <= i < |s| ==> IsSpace(s[i])
  {
    if s != [] && IsSpace(s[|s| - 1]) then TrimRight(s[..|s| - 1]) else s
  }

  /** Python's `str.strip()` with no argument. */
  function Trim(s: string): (r: string)
    ensures |r| <= |s|
    ensures r == [] || (!IsSpace(r[0]) && !IsSpace(r[|r| - 1]))
  {
    TrimRight(TrimLeft(s))
  }

  /** A string with no surrounding whitespace is left alone by `strip()`. */
  lemma TrimNoop(s: string)
    requires s == [] || (!IsSpace(s[0]) && !IsSpace(s[|s| - 1]))
    ensures Trim(s) == s
  {
  }

  lemma TrimIdempotent(s: string)
    ensures Trim(Trim(s)) == Trim(s)
  {
    TrimNoop(Trim(s));
  }

  /** Leading whitespace in front of text that starts with a non-space is all `lstrip()` removes. */
  lemma {:induction false} TrimLeftPadded(pre: string, s: string)
    requires forall i :: 0 <= i < |pre| ==> IsSpace(pre[i])
    requires s == [] || !IsSpace(s[0])
    ensures TrimLeft(pre + s) == s
  {
    if pre == [] {
      assert pre + s == s;
    } else {
      assert (pre + s)[1..] == pre[1..] + s;
      TrimLeftPadded(pre[1..], s);
    }
  }

  /** Trailing whitespace after text that ends in a non-space is all `rstrip()` removes. */
  lemma {:induction false} TrimRightPadded(s: string, post: string)
    requires forall i :: 0 <= i < |post| ==> IsSpace(post[i])
    requires s == [] || !IsSpace(s[|s| - 1])
    ensures TrimRight(s + post) == s
  {
    if post == [] {
      assert s + post == s;
    } else {
      var shorter := post[..|post| - 1];
      assert (s + post)[..|s + post| - 1] == s + shorter;
      TrimRightPadded(s, shorter);
    }
  }

  /** `strip()` removes exactly the whitespace put around a non-empty text that has none at its ends. */
  lemma TrimPadded(pre: string, s: string, post: string)
    requires forall i :: 0 <= i < |pre| ==> IsSpace(pre[i])
    requires forall i :: 0 <= i < |post| ==> IsSpace(post[i])
    requires s != [] && !IsSpace(s[0]) && !IsSpace(s[|s| - 1])
    ensures Trim(pre + s + post) == s
  {
    assert pre + s + post == pre + (s + post);
    TrimLeftPadded(pre, s + post);
    TrimRightPadded(s, post);
  }

  /** `strip()` keeps only characters of its input. */
  lemma TrimLacks(s: string, c: char)
    requires c !in s
    ensures c !in Trim(s)
  {
    var l := TrimLeft(s);
    assert l == s[|s| - |l|..];
    assert c !in l;
    var r := TrimRight(l);
    assert r == l[..|r|];
  }

  function LowerChar(c: char): char {
    if 'A' <= c <= 'Z' then (c as int + 32) as char else c
  }

  function UpperChar(c: char): char {
    if 'a' <= c <= 'z' then (c as int - 32) as char else c
  }

  /** `str.lower()` on the ASCII letters. */
  function Lower(s: string): (r: string)
    ensures |r| == |s|
    ensures forall i :: 0 <= i < |s| ==> r[i] == LowerChar(s[i])
  {
    seq(|s|, i requires 0 <= i < |s| => LowerChar(s[i]))
  }

  /** Character-wise description of `Lower`, convenient for short concrete strings. */
  lemma LowerEq(s: string, t: string)
    requires |s| == |t| && forall i | 0 <= i < |s| :: LowerChar(s[i]) == t[i]
    ensures Lower(s) == t
  {
  }

  /** A string without upper-case ASCII letters is its own lower-case form. */
  lemma LowerNoop(s: string)
    requires forall i :: 0 <= i < |s| ==> !('A' <= s[i] <= 'Z')
    ensures Lower(s) == s
  {
  }

  /** Lower-casing twice is lower-casing once. */
  lemma LowerIdempotent(s: string)
    ensures Lower(Lower(s)) == Lower(s)
  {
    LowerEq(Lower(s), Lower(s));
  }

  /** Lower-casing keeps a stripped text stripped: it never turns a letter into whitespace. */
  lemma TrimLower(s: string)
    requires s == [] || (!IsSpace(s[0]) && !IsSpace(s[|s| - 1]))
    ensures Trim(Lower(s)) == Lower(s)
  {
    TrimNoop(Lower(s));
  }

  predicate StartsWith(s: string, p: string) {
    |p| <= |s| && s[..|p|] == p
  }

  predicate EndsWith(s: string, p: string) {
    |p| <= |s| && s[|s| - |p|..] == p
  }

  /** Python's `sub in s`. */
  predicate Contains(s: string, sub: string)
    decreases |s|
  {
    StartsWith(s, sub) || (s != [] && Contains(s[1..], sub))
  }

  /** Every occurrence of `c` removed: `s.replace(c, "")`. */
  function RemoveChar(s: string, c: char): (r: string)
    ensures |r| <= |s|
    ensures c !in r
    ensures forall x :: x != c ==> multiset(r)[x] == multiset(s)[x]
  {
    if s == [] then []
    else
      assert s == [s[0]] + s[1..];
      (if s[0] == c then [] else [s[0]]) + RemoveChar(s[1..], c)
  }

  /** Every occurrence of `a` replaced by `b`: `s.replace(a, b)` for one-character arguments. */
  function ReplaceChar(s: string, a: char, b: char): (r: string)
    ensures |r| == |s|
    ensures forall i :: 0 <= i < |s| ==> r[i] == (if s[i] == a then b else s[i])
  {
    seq(|s|, i requires 0 <= i < |s| => if s[i] == a then b else s[i])
  }

  lemma {:induction false} RemoveCharAbsent(s: string, c: char)
    requires c !in s
    ensures RemoveChar(s, c) == s
  {
    if s != [] {
      RemoveCharAbsent(s[1..], c);
    }
  }

  /** Removing a character from a concatenation removes it from each part. */
  lemma {:induction false} RemoveCharAppend(a: string, b: string, c: char)
    ensures RemoveChar(a + b, c) == RemoveChar(a, c) + RemoveChar(b, c)
  {
    if a == [] {
      assert a + b == b;
    } else {
      var ab := a + b;
      var head: string := if a[0] == c then [] else [a[0]];
      assert ab[0] == a[0] && ab[1..] == a[1..] + b;
      assert RemoveChar(ab, c) == head + RemoveChar(a[1..] + b, c);
      assert RemoveChar(a, c) == head + RemoveChar(a[1..], c);
      RemoveCharAppend(a[1..], b, c);
      assert head + (RemoveChar(a[1..], c) + RemoveChar(b, c)) == (head + RemoveChar(a[1..], c)) + RemoveChar(b, c);
    }
  }

  lemma ReplaceCharAbsent(s: string, a: char, b: char)
    requires a !in s
    ensures ReplaceChar(s, a, b) == s
  {
  }

  // ---------------------------------------------------------------------------
  // Decimal digits: `str(n)`, `int(s)`, `zfill`
  // ---------------------------------------------------------------------------

  predicate IsDigit(c: char) {
    '0' <= c <= '9'
  }

  predicate AllDigits(s: string) {
    forall i :: 0 <= i < |s| ==> IsDigit(s[i])
  }

  function DigitChar(d: nat): (c: char)
    requires d < 10
    ensures IsDigit(c)
  {
    ('0' as int + d) as char
  }

  /** `str(n)` for a natural number. */
  function NatToString(n: nat): (r: string)
    ensures |r| > 0 && AllDigits(r)
  {
    if n < 10 then [DigitChar(n)] else NatToString(n / 10) + [DigitChar(n % 10)]
  }

  /** The number a string of decimal digits denotes (leading zeros allowed). */
  function DigitsValue(s: string): nat
    requires AllDigits(s)
  {
    if s == [] then 0 else DigitsValue(s[..|s| - 1]) * 10 + (s[|s| - 1] as int - '0' as int)
  }

  lemma {:induction false} DigitsOfNat(n: nat)
    ensures DigitsValue(NatToString(n)) == n
  {
    var s := NatToString(n);
    if n >= 10 {
      DigitsOfNat(n / 10);
      assert s[..|s| - 1] == NatToString(n / 10);
    }
  }

  lemma NatToStringInjective(a: nat, b: nat)
    requires NatToString(a) == NatToString(b)
    ensures a == b
  {
    DigitsOfNat(a);
    DigitsOfNat(b);
  }

  /** `str(n)` for any integer. */
  function IntToString(n: int): (r: string)
    ensures |r| > 0
    ensures r[0] == '-' <==> n < 0
  {
    if n < 0 then "-" + NatToString(-n) else NatToString(n)
  }

  /** An optional sign followed by at least one decimal digit; anything else does not parse. */
  function ParseInt(s: string): (r: Option<int>)
    ensures r.Some? ==> s != [] && IsDigit(s[|s| - 1])
    ensures r.Some? && r.value < 0 ==> s[0] == '-'
  {
    if |s| > 0 && (s[0] == '-' || s[0] == '+') then
      var ds := s[1..];
      if |ds| > 0 && AllDigits(ds) then Some(if s[0] == '-' then -(DigitsValue(ds) as int) else DigitsValue(ds))
      else None
    else if |s| > 0 && AllDigits(s) then Some(DigitsValue(s))
    else None
  }

  /** `str(n)` is a run of digits, with a minus sign in front when `n` is negative. */
  lemma IntToStringChars(n: int)
    ensures forall i :: 0 <= i < |IntToString(n)| ==> IsDigit(IntToString(n)[i]) || (i == 0 && IntToString(n)[i] == '-')
    ensures IsDigit(IntToString(n)[|IntToString(n)| - 1])
  {
    if n < 0 {
      var s := IntToString(n);
      assert s[1..] == NatToString(-n);
      assert forall i :: 1 <= i < |s| ==> s[i] == NatToString(-n)[i - 1];
    }
  }

  /** Parsing undoes rendering. */
  lemma ParseIntToString(n: int)
    ensures ParseInt(IntToString(n)) == Some(n)
  {
    if n < 0 {
      var ds := NatToString(-n);
      DigitsOfNat(-n);
      ParseDigits(ds);
      assert IntToString(n) == "-" + ds;
    } else {
      DigitsOfNat(n);
      ParseDigits(NatToString(n));
    }
  }

  /** A run of digits parses to its value, and with a minus sign in front to its negation. */
  lemma ParseDigits(ds: string)
    requires |ds| > 0 && AllDigits(ds)
    ensures ParseInt(ds) == Some(DigitsValue(ds) as int)
    ensures ParseInt("-" + ds) == Some(-(DigitsValue(ds) as int))
  {
    assert IsDigit(ds[0]) && ds[0] != '-' && ds[0] != '+';
    var neg := "-" + ds;
    assert neg[0] == '-' && neg[1..] == ds;
  }

  lemma IntToStringInjective(a: int, b: int)
    requires IntToString(a) == IntToString(b)
    ensures a == b
  {
    ParseIntToString(a);
    ParseIntToString(b);
  }

  function Zeros(n: nat): (r: string)
    ensures |r| == n && forall i :: 0 <= i < n ==> r[i] == '0'
  {
    seq(n, _ => '0')
  }

  /** Python's `s.zfill(w)`: pad with zeros to width `w`, after a leading sign if there is one. */
  function ZFill(s: string, w: nat): (r: string)
    ensures |r| == if |s| >= w then |s| else w
    ensures |s| >= w ==> r == s
    ensures |s| < w && !(|s| > 0 && (s[0] == '+' || s[0] == '-')) ==> r == Zeros(w - |s|) + s
    ensures 0 < |s| < w && (s[0] == '+' || s[0] == '-') ==> r == [s[0]] + Zeros(w - |s|) + s[1..]
  {
    if |s| >= w then s
    else if |s| > 0 && (s[0] == '+' || s[0] == '-') then [s[0]] + Zeros(w - |s|) + s[1..]
    else Zeros(w - |s|) + s
  }

  // ---------------------------------------------------------------------------
  // Numbered tags such as `_dup3` and `_2`
  // ---------------------------------------------------------------------------

  /** The number of decimal digits `s` ends with. */
  function TrailingDigits(s: string): (d: nat)
    ensures d <= |s|
    ensures AllDigits(s[|s| - d..])
    ensures d < |s| ==> !IsDigit(s[|s| - d - 1])
  {
    if s != [] && IsDigit(s[|s| - 1]) then
      var d := 1 + TrailingDigits(s[..|s| - 1]);
      assert s[|s| - d..] == s[..|s| - 1][|s| - 1 - (d - 1)..] + [s[|s| - 1]];
      d
    else 0
  }

  /** A separator whose last character is not a digit, so that a number after it can be read back. */
  predicate Separator(sep: string) {
    sep != [] && !IsDigit(sep[|sep| - 1])
  }

  /** `s` has the form `x + sep + digits` with at least one digit. */
  predicate HasTag(s: string, sep: string) {
    var d := TrailingDigits(s);
    d > 0 && EndsWith(s[..|s| - d], sep)
  }

  lemma {:induction false} TrailingDigitsOfTagged(x: string, sep: string, ds: string)
    requires Separator(sep) && AllDigits(ds)
    ensures TrailingDigits(x + sep + ds) == |ds|
  {
    var s := x + sep + ds;
    if ds == [] {
      assert s[|s| - 1] == sep[|sep| - 1];
    } else {
      assert s[..|s| - 1] == x + sep + ds[..|ds| - 1];
      TrailingDigitsOfTagged(x, sep, ds[..|ds| - 1]);
    }
  }

  /** `x + sep + str(k)` carries a `sep` tag. */
  lemma TaggedHasTag(x: string, sep: string, k: nat)
    requires Separator(sep)
    ensures HasTag(x + sep + NatToString(k), sep)
  {
    var ds := NatToString(k);
    TrailingDigitsOfTagged(x, sep, ds);
    var s := x + sep + ds;
    assert s[..|s| - |ds|] == x + sep;
  }

  /** A tag made with one separator is not a tag of another separator that ends differently. */
  lemma TaggedLacksOtherTag(x: string, sep: string, k: nat, other: string)
    requires Separator(sep) && Separator(other)
    requires sep[|sep| - 1] != other[|other| - 1]
    ensures !HasTag(x + sep + NatToString(k), other)
  {
    var ds := NatToString(k);
    TrailingDigitsOfTagged(x, sep, ds);
    var s := x + sep + ds;
    var p := s[..|s| - |ds|];
    assert p == x + sep;
    LastCharDiffers(p, other);
  }

  /** A string does not end with a suffix whose last character differs from its own. */
  lemma LastCharDiffers(p: string, suffix: string)
    requires p != [] && suffix != [] && p[|p| - 1] != suffix[|suffix| - 1]
    ensures !EndsWith(p, suffix)
  {
  }

  /** The label and the number can be read back from `x + sep + digits`. */
  lemma TagInjective(x: string, y: string, sep: string, d1: string, d2: string)
    requires Separator(sep) && AllDigits(d1) && AllDigits(d2)
    requires x + sep + d1 == y + sep + d2
    ensures x == y && d1 == d2
  {
    var s := x + sep + d1;
    TrailingDigitsOfTagged(x, sep, d1);
    TrailingDigitsOfTagged(y, sep, d2);
    assert d1 == s[|s| - |d1|..] == d2;
    assert x + sep == s[..|s| - |d1|] == y + sep;
    assert x == (x + sep)[..|x|];
  }

  // ---------------------------------------------------------------------------
  // Python's string ordering (code point by code point)
  // ---------------------------------------------------------------------------

  predicate LexLess(a: string, b: string)
    decreases |a|
  {
    if a == [] then b != []
    else if b == [] then false
    else if a[0] == b[0] then LexLess(a[1..], b[1..])
    else a[0] < b[0]
  }

  lemma {:induction false} LexLessIrreflexive(a: string)
    ensures !LexLess(a, a)
  {
    if a != [] { LexLessIrreflexive(a[1..]); }
  }

  lemma {:induction false} LexLessTransitive(a: string, b: string, c: string)
    requires LexLess(a, b) && LexLess(b, c)
    ensures LexLess(a, c)
  {
    if a != [] && b != [] && c != [] && a[0] == b[0] && b[0] == c[0] {
      LexLessTransitive(a[1..], b[1..], c[1..]);
    }
  }

  lemma {:induction false} LexLessTotal(a: string, b: string)
    requires a != b
    ensures LexLess(a, b) || LexLess(b, a)
  {
    if a != [] && b != [] && a[0] == b[0] {
      assert a == [a[0]] + a[1..] && b == [b[0]] + b[1..];
      LexLessTotal(a[1..], b[1..]);
    }
  }

  /** Index of the first `c` in `s`, or `|s|` when there is none. */
  function FindChar(s: string, c: char): (k: nat)
    ensures k <= |s|
  {
    if s == [] || s[0] == c then 0 else 1 + FindChar(s[1..], c)
  }

  lemma {:induction false} FindCharAfterWord(a: string, c: char, b: string)
    requires c !in a
    ensures FindChar(a + [c] + b, c) == |a|
  {
    if a != [] {
      assert (a + [c] + b)[1..] == a[1..] + [c] + b;
      FindCharAfterWord(a[1..], c, b);
    }
  }

  /** Two words free of `sep` that are joined to a tail by `sep` can be split apart again. */
  lemma SplitAtSeparator(a1: string, a2: string, sep: char, b1: string, b2: string)
    requires sep !in a1 && sep !in a2
    requires a1 + [sep] + b1 == a2 + [sep] + b2
    ensures a1 == a2 && b1 == b2
  {
    var s := a1 + [sep] + b1;
    FindCharAfterWord(a1, sep, b1);
    FindCharAfterWord(a2, sep, b2);
    assert a1 == s[..|a1|] == a2;
    assert b1 == s[|a1| + 1..] == b2;
  }
}
