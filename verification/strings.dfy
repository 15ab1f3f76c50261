/** The string primitives the Rust backend relies on (`str::find`, `rfind`,
    `contains`, `starts_with`, `replace`, `trim`, `join`, `Ord for String`,
    integer formatting), written out over `seq<char>`.

    Strings are sequences of Unicode scalar values. Rust indexes `str` by
    UTF-8 byte offset, but every search here only slices at match
    boundaries, so counting in characters gives the same substrings. */
module Strings {
  import opened Wrappers

  // ---------------------------------------------------------------------
  // Substring search
  // ---------------------------------------------------------------------

  /** `pat` occurs in `s` starting at index `i`. */
  predicate MatchAt(s: string, pat: string, i: int) {
    0 <= i && i + |pat| <= |s| && s[i..i + |pat|] == pat
  }

  /** First occurrence of `pat` at an index at or after `from` (Rust `find` on
      the suffix, expressed in indices of `s`). */
  function FindFrom(s: string, pat: string, from: nat): (r: Option<nat>)
    ensures r.Some? ==> from <= r.value && MatchAt(s, pat, r.value)
    ensures r.Some? ==> forall j :: from <= j < r.value ==> !MatchAt(s, pat, j)
    ensures r.None? ==> forall j :: from <= j ==> !MatchAt(s, pat, j)
    decreases |s| - from
  {
    if from + |pat| > |s| then None
    else if s[from..from + |pat|] == pat then Some(from)
    else FindFrom(s, pat, from + 1)
  }

  /** Rust `s.find(pat)`: the index of the first occurrence. */
  function Find(s: string, pat: string): (r: Option<nat>)
    ensures r.Some? ==> MatchAt(s, pat, r.value)
    ensures r.Some? ==> forall j :: 0 <= j < r.value ==> !MatchAt(s, pat, j)
    ensures r.None? <==> forall j :: 0 <= j ==> !MatchAt(s, pat, j)
  {
    FindFrom(s, pat, 0)
  }

  /** Last occurrence of `pat` starting at an index at most `upto`. */
  function RFindUpto(s: string, pat: string, upto: int): (r: Option<nat>)
    ensures r.Some? ==> r.value <= upto && MatchAt(s, pat, r.value)
    ensures r.Some? ==> forall j :: r.value < j <= upto ==> !MatchAt(s, pat, j)
    ensures r.None? ==> forall j :: j <= upto ==> !MatchAt(s, pat, j)
    decreases upto + 1
  {
    if upto < 0 then None
    else if MatchAt(s, pat, upto) then Some(upto)
    else RFindUpto(s, pat, upto - 1)
  }

  /** Rust `s.rfind(pat)`: the index of the last occurrence. */
  function RFind(s: string, pat: string): (r: Option<nat>)
    ensures r.Some? ==> MatchAt(s, pat, r.value)
    ensures r.Some? ==> forall j :: r.value < j ==> !MatchAt(s, pat, j)
    ensures r.None? <==> forall j :: 0 <= j ==> !MatchAt(s, pat, j)
  {
    RFindUpto(s, pat, |s| - |pat|)
  }

  /** A match with no earlier match from `from` on is what `FindFrom`
      returns. */
  lemma FindFromUnique(s: string, pat: string, from: nat, i: nat)
    requires from <= i && MatchAt(s, pat, i)
    requires forall j :: from <= j < i ==> !MatchAt(s, pat, j)
    ensures FindFrom(s, pat, from) == Some(i)
  {
  }

  /** A match with no later match up to `upto` is what `RFindUpto`
      returns. */
  lemma RFindUptoUnique(s: string, pat: string, upto: int, i: nat)
    requires i <= upto && MatchAt(s, pat, i)
    requires forall j :: i < j <= upto ==> !MatchAt(s, pat, j)
    ensures RFindUpto(s, pat, upto) == Some(i)
  {
  }

  predicate Contains(s: string, pat: string) {
    exists i :: 0 <= i <= |s| - |pat| && MatchAt(s, pat, i)
  }

  lemma FindIffContains(s: string, pat: string)
    ensures Find(s, pat).Some? <==> Contains(s, pat)
  {
    if Find(s, pat).Some? {
      var i := Find(s, pat).value;
      assert 0 <= i <= |s| - |pat| && MatchAt(s, pat, i);
    }
  }

  predicate StartsWith(s: string, prefix: string) {
    |prefix| <= |s| && s[..|prefix|] == prefix
  }

  predicate EndsWith(s: string, suffix: string) {
    |suffix| <= |s| && s[|s| - |suffix|..] == suffix
  }

  // ---------------------------------------------------------------------
  // ASCII case folding (SQLite LIKE, `to_lowercase` on ASCII patterns)
  // ---------------------------------------------------------------------

  function AsciiLower(c: char): (r: char)
    ensures 'A' <= c <= 'Z' ==> r as int == c as int + 32
    ensures !('A' <= c <= 'Z') ==> r == c
  {
    if 'A' <= c <= 'Z' then (c as int + 32) as char else c
  }

  function LowerAscii(s: string): (r: string)
    ensures |r| == |s|
    ensures forall i :: 0 <= i < |s| ==> r[i] == AsciiLower(s[i])
  {
    seq(|s|, i requires 0 <= i < |s| => AsciiLower(s[i]))
  }

  /** SQLite `x LIKE '%pat%'` for a pattern without wildcards: a substring
      test that ignores the case of ASCII letters only. */
  predicate LikeContains(s: string, pat: string) {
    Contains(LowerAscii(s), LowerAscii(pat))
  }

  // ---------------------------------------------------------------------
  // Replacement
  // ---------------------------------------------------------------------

  /** Rust `s.replace(pat, rep)`: every non-overlapping occurrence, scanning
      left to right, is replaced. */
  function ReplaceAll(s: string, pat: string, rep: string): (r: string)
    requires |pat| > 0
    ensures !Contains(s, pat) ==> r == s
    decreases |s|
  {
    if |s| == 0 then []
    else if StartsWith(s, pat) then
      assert MatchAt(s, pat, 0);
      rep + ReplaceAll(s[|pat|..], pat, rep)
    else
      assert !Contains(s, pat) ==> !Contains(s[1..], pat) by {
        if Contains(s[1..], pat) {
          var i :| 0 <= i <= |s[1..]| - |pat| && MatchAt(s[1..], pat, i);
          assert s[i + 1..i + 1 + |pat|] == s[1..][i..i + |pat|];
          assert MatchAt(s, pat, i + 1);
        }
      }
      [s[0]] + ReplaceAll(s[1..], pat, rep)
  }

  /** `pat` occurs at `i` and nowhere before. */
  predicate FirstMatch(s: string, pat: string, i: nat) {
    MatchAt(s, pat, i) && forall j :: 0 <= j < i ==> !MatchAt(s, pat, j)
  }

  /** Replacing in `s` splices `rep` in at `i` and replaces on in the rest. */
  predicate Splices(s: string, pat: string, rep: string, i: nat)
    requires |pat| > 0
  {
    i + |pat| <= |s| &&
    ReplaceAll(s, pat, rep) == s[..i] + rep + ReplaceAll(s[i + |pat|..], pat, rep)
  }

  /** `replace` keeps the text before the first match, puts `rep` in its
      place, and carries on after it. */
  lemma {:induction false} ReplaceAllFirst(s: string, pat: string, rep: string, i: nat)
    requires |pat| > 0 && FirstMatch(s, pat, i)
    ensures Splices(s, pat, rep, i)
    decreases i
  {
    if i == 0 {
      ReplaceAllAtStart(s, pat, rep);
    } else {
      FirstMatchShift(s, pat, i);
      ReplaceAllFirst(s[1..], pat, rep, i - 1);
      assert !StartsWith(s, pat) by { assert !MatchAt(s, pat, 0); }
      ReplaceAllStep(s, pat, rep, i);
    }
  }

  lemma ReplaceAllAtStart(s: string, pat: string, rep: string)
    requires |pat| > 0 && MatchAt(s, pat, 0)
    ensures Splices(s, pat, rep, 0)
  {
    assert StartsWith(s, pat);
    assert s[..0] + rep == rep;
  }

  /** Without a match at the front, the first character is kept. */
  lemma ReplaceAllKeep(s: string, pat: string, rep: string)
    requires |pat| > 0 && |s| > 0 && !StartsWith(s, pat)
    ensures ReplaceAll(s, pat, rep) == [s[0]] + ReplaceAll(s[1..], pat, rep)
  {
  }

  lemma ConsSplice(s: string, k: nat, r: string, rep: string, tail: string)
    requires k < |s| && r == s[1..][..k] + rep + tail
    ensures [s[0]] + r == s[..k + 1] + rep + tail
  {
    assert [s[0]] + s[1..][..k] == s[..k + 1];
  }

  /** One induction step of `ReplaceAllFirst`: the first character is kept
      in front of the tail's replacement. */
  lemma ReplaceAllStep(s: string, pat: string, rep: string, i: nat)
    requires |pat| > 0 && |s| > 0 && !StartsWith(s, pat) && i > 0
    requires Splices(s[1..], pat, rep, i - 1)
    ensures Splices(s, pat, rep, i)
  {
    var t := s[1..];
    assert t[i - 1 + |pat|..] == s[i + |pat|..];
    ReplaceAllKeep(s, pat, rep);
    ConsSplice(s, i - 1, ReplaceAll(t, pat, rep), rep, ReplaceAll(s[i + |pat|..], pat, rep));
  }

  /** A first match past the start is one position earlier in the tail. */
  lemma FirstMatchShift(s: string, pat: string, i: nat)
    requires FirstMatch(s, pat, i) && i > 0
    ensures FirstMatch(s[1..], pat, i - 1)
  {
    var t := s[1..];
    forall j | 0 <= j ensures MatchAt(t, pat, j) <==> MatchAt(s, pat, j + 1) {
      if j + 1 + |pat| <= |s| {
        assert t[j..j + |pat|] == s[j + 1..j + 1 + |pat|];
      }
    }
  }

  // ---------------------------------------------------------------------
  // Whitespace and trimming (Rust `str::trim`)
  // ---------------------------------------------------------------------

  /** Rust `char::is_whitespace`: the Unicode White_Space property. */
  predicate IsWhitespace(c: char) {
    || ('\U{9}' <= c <= '\U{D}')
    || c == ' '
    || c == '\U{85}'
    || c == '\U{A0}'
    || c == '\U{1680}'
    || ('\U{2000}' <= c <= '\U{200A}')
    || c == '\U{2028}'
    || c == '\U{2029}'
    || c == '\U{202F}'
    || c == '\U{205F}'
    || c == '\U{3000}'
  }

  /** The first index at or after `i` that does not hold whitespace. */
  function SkipWhitespace(s: string, i: nat): (lo: nat)
    requires i <= |s|
    ensures i <= lo <= |s|
    ensures forall k :: i <= k < lo ==> IsWhitespace(s[k])
    ensures lo == |s| || !IsWhitespace(s[lo])
    decreases |s| - i
  {
    if i < |s| && IsWhitespace(s[i]) then SkipWhitespace(s, i + 1) else i
  }

  /** The smallest `hi` in `[lo, j]` such that `s[hi..j]` is all whitespace. */
  function BackWhitespace(s: string, lo: nat, j: nat): (hi: nat)
    requires lo <= j <= |s|
    ensures lo <= hi <= j
    ensures forall k :: hi <= k < j ==> IsWhitespace(s[k])
    ensures hi == lo || !IsWhitespace(s[hi - 1])
    decreases j
  {
    if j > lo && IsWhitespace(s[j - 1]) then BackWhitespace(s, lo, j - 1) else j
  }

  /** Where the trimmed text starts. */
  function TrimLo(s: string): nat {
    SkipWhitespace(s, 0)
  }

  /** Where the trimmed text ends. */
  function TrimHi(s: string): nat
    ensures TrimLo(s) <= TrimHi(s) <= |s|
  {
    BackWhitespace(s, TrimLo(s), |s|)
  }

  /** Rust `s.trim()`: `s` without its leading and trailing whitespace. */
  function Trim(s: string): (r: string)
    ensures r == s[TrimLo(s)..TrimHi(s)]
    ensures forall k :: 0 <= k < TrimLo(s) ==> IsWhitespace(s[k])
    ensures forall k :: TrimHi(s) <= k < |s| ==> IsWhitespace(s[k])
    ensures r == [] || (!IsWhitespace(r[0]) && !IsWhitespace(r[|r| - 1]))
    ensures r == [] <==> forall k :: 0 <= k < |s| ==> IsWhitespace(s[k])
  {
    var lo := TrimLo(s);
    var hi := TrimHi(s);
    assert lo < |s| ==> hi > lo;
    s[lo..hi]
  }

  // ---------------------------------------------------------------------
  // Joining and splitting lines
  // ---------------------------------------------------------------------

  /** Rust `parts.join(sep)`. */
  function Join(parts: seq<string>, sep: string): (r: string)
    ensures |parts| == 0 ==> r == []
    ensures |parts| == 1 ==> r == parts[0]
    ensures |parts| > 0 ==> StartsWith(r, parts[0])
  {
    if |parts| == 0 then []
    else if |parts| == 1 then parts[0]
    else parts[0] + sep + Join(parts[1..], sep)
  }

  /** Joining two non-empty lists is joining each and putting `sep`
      between them. */
  lemma {:induction false} JoinAppend(x: seq<string>, y: seq<string>, sep: string)
    requires |x| > 0 && |y| > 0
    ensures Join(x + y, sep) == Join(x, sep) + sep + Join(y, sep)
    decreases |x|
  {
    if |x| > 1 {
      assert (x + y)[1..] == x[1..] + y;
      JoinAppend(x[1..], y, sep);
    } else {
      assert (x + y)[1..] == y;
    }
  }

  /** Splits on every occurrence of `sep`; the inverse of joining with `[sep]`
      for parts that do not contain `sep`. */
  function Split(s: string, sep: char): (r: seq<string>)
    ensures |r| > 0
    decreases |s|
  {
    if |s| == 0 then [[]]
    else
      var rest := Split(s[1..], sep);
      if s[0] == sep then [[]] + rest
      else [[s[0]] + rest[0]] + rest[1..]
  }

  lemma {:induction false} SplitNoSep(s: string, sep: char)
    requires sep !in s
    ensures Split(s, sep) == [s]
    decreases |s|
  {
    if |s| > 0 {
      SplitNoSep(s[1..], sep);
      assert [s[0]] + s[1..] == s;
    }
  }

  lemma {:induction false} SplitConcat(a: string, sep: char, b: string)
    requires sep !in a
    ensures Split(a + [sep] + b, sep) == [a] + Split(b, sep)
    decreases |a|
  {
    if |a| == 0 {
      assert a + [sep] + b == [sep] + b;
      assert ([sep] + b)[1..] == b;
    } else {
      var s := a + [sep] + b;
      assert s[0] == a[0] && s[1..] == a[1..] + [sep] + b;
      SplitConcat(a[1..], sep, b);
      assert [a[0]] + a[1..] == a;
    }
  }

  /** Joining lines with a separator character and splitting again on it
      gives back the lines, when no line contains the separator. */
  lemma {:induction false} SplitJoin(parts: seq<string>, sep: char)
    requires |parts| > 0
    requires forall i :: 0 <= i < |parts| ==> sep !in parts[i]
    ensures Split(Join(parts, [sep]), sep) == parts
    decreases |parts|
  {
    if |parts| == 1 {
      SplitNoSep(parts[0], sep);
    } else {
      SplitJoin(parts[1..], sep);
      SplitConcat(parts[0], sep, Join(parts[1..], [sep]));
      assert [parts[0]] + parts[1..] == parts;
    }
  }

  // ---------------------------------------------------------------------
  // Lexicographic order (Rust `Ord for String`)
  // ---------------------------------------------------------------------

  /** `a <= b` in lexicographic order of code points. Rust compares the UTF-8
      bytes, and UTF-8 preserves code-point order, so the two agree. */
  predicate LexLe(a: string, b: string)
    decreases |a|
  {
    |a| == 0 || (|b| > 0 && (a[0] < b[0] || (a[0] == b[0] && LexLe(a[1..], b[1..]))))
  }

  lemma {:induction false} LexLeTotal(a: string, b: string)
    ensures LexLe(a, b) || LexLe(b, a)
    decreases |a|
  {
    if |a| > 0 && |b| > 0 && a[0] == b[0] {
      LexLeTotal(a[1..], b[1..]);
    }
  }

  lemma {:induction false} LexLeTransitive(a: string, b: string, c: string)
    requires LexLe(a, b) && LexLe(b, c)
    ensures LexLe(a, c)
    decreases |a|
  {
    if |a| > 0 && a[0] == b[0] && b[0] == c[0] {
      LexLeTransitive(a[1..], b[1..], c[1..]);
    }
  }

  lemma {:induction false} LexLeAntisymmetric(a: string, b: string)
    requires LexLe(a, b) && LexLe(b, a)
    ensures a == b
    decreases |a|
  {
    if |a| > 0 {
      LexLeAntisymmetric(a[1..], b[1..]);
      assert a == [a[0]] + a[1..] && b == [b[0]] + b[1..];
    }
  }

  // ---------------------------------------------------------------------
  // Decimal formatting
  // ---------------------------------------------------------------------

  predicate IsDigit(c: char) {
    '0' <= c <= '9'
  }

  function DigitChar(d: nat): (c: char)
    requires d < 10
    ensures IsDigit(c) && c as int - '0' as int == d
  {
    ('0' as int + d) as char
  }

  /** Rust `format!("{}", n)` for an unsigned integer. */
  function NatToString(n: nat): (r: string)
    ensures |r| > 0
    ensures forall i :: 0 <= i < |r| ==> IsDigit(r[i])
    ensures r[0] == '0' ==> n == 0 && r == "0"
  {
    if n < 10 then [DigitChar(n)] else NatToString(n / 10) + [DigitChar(n % 10)]
  }

  /** The value of a string of decimal digits; the reference that
      `NatToString` is checked against. */
  function DecimalValue(s: string): nat
    requires forall i :: 0 <= i < |s| ==> IsDigit(s[i])
  {
    if |s| == 0 then 0
    else
      var d := s[|s| - 1] as int - '0' as int;
      assert IsDigit(s[|s| - 1]);
      DecimalValue(s[..|s| - 1]) * 10 + d
  }

  lemma {:induction false} NatToStringValue(n: nat)
    ensures DecimalValue(NatToString(n)) == n
  {
    if n >= 10 {
      NatToStringValue(n / 10);
      var r := NatToString(n);
      assert r[..|r| - 1] == NatToString(n / 10);
    }
  }

  /** Rust `format!("{}", i)` for a signed integer. */
  function IntToString(i: int): (r: string)
    ensures i >= 0 ==> r == NatToString(i)
    ensures i < 0 ==> r == "-" + NatToString(-i)
  {
    if i >= 0 then NatToString(i) else "-" + NatToString(-i)
  }

  /** Left-pads `s` with '0' up to `width` characters (Rust zero-padded width formatting). */
  function ZeroPad(s: string, width: nat): (r: string)
    ensures |r| == if |s| >= width then |s| else width
    ensures EndsWith(r, s)
    ensures forall i :: 0 <= i < |r| - |s| ==> r[i] == '0'
  {
    if |s| >= width then s else seq(width - |s|, _ => '0') + s
  }
}
