/** The optional value that stands for JavaScript's `null` results. */
module Options {
  datatype Option<T> = None | Some(value: T)
}

/**
 * The JavaScript string operations the extension relies on: `trim`, `split`,
 * `indexOf`, `includes`, `startsWith`, `endsWith`, `toLowerCase`, `replace`
 * and `parseInt`, together with the character classes of its regular
 * expressions (`\s`, `\d`, `.`). Strings are sequences of UTF-16 code units,
 * written here as `seq<char>`.
 */
module Text {

  /** White space as JavaScript's `\s` and `String.prototype.trim` define it. */
  predicate IsSpace(c: char) {
    c == ' ' || ('\t' <= c <= '\r') || ('\U{00A0}' <= c && IsWideSpace(c))
  }

  /** The white space of `IsSpace` beyond ASCII. */
  predicate IsWideSpace(c: char) {
    || c == '\U{00A0}' || c == '\U{1680}' || ('\U{2000}' <= c <= '\U{200A}')
    || c == '\U{2028}' || c == '\U{2029}' || c == '\U{202F}' || c == '\U{205F}'
    || c == '\U{3000}' || c == '\U{FEFF}'
  }

  /** The characters a regular-expression `.` refuses to match. */
  predicate IsLineTerminator(c: char) {
    c == '\n' || c == '\r' || c == '\U{2028}' || c == '\U{2029}'
  }

  /** `\d`: an ASCII decimal digit. */
  predicate IsDigit(c: char) {
    '0' <= c <= '9'
  }

  predicate AllDigits(s: string) {
    forall i :: 0 <= i < |s| ==> IsDigit(s[i])
  }

  /** First index at or after `i` that is not white space, or `|s|`. */
  function SkipSpaces(s: string, i: nat): (j: nat)
    requires i <= |s|
    ensures i <= j <= |s|
    decreases |s| - i
  {
    if i == |s| || !IsSpace(s[i]) then i else SkipSpaces(s, i + 1)
  }

  /** First index at or after `i` that is white space, or `|s|`. */
  function SkipNonSpaces(s: string, i: nat): (j: nat)
    requires i <= |s|
    ensures i <= j <= |s|
    decreases |s| - i
  {
    if i == |s| || IsSpace(s[i]) then i else SkipNonSpaces(s, i + 1)
  }

  /** First index at or after `i` that is not a digit, or `|s|`. */
  function SkipDigits(s: string, i: nat): (j: nat)
    requires i <= |s|
    ensures i <= j <= |s|
    decreases |s| - i
  {
    if i == |s| || !IsDigit(s[i]) then i else SkipDigits(s, i + 1)
  }

  /** What `SkipSpaces` skips over and where it stops. */
  lemma {:induction false} SkipSpacesFacts(s: string, i: nat)
    requires i <= |s|
    ensures forall k :: i <= k < SkipSpaces(s, i) ==> IsSpace(s[k])
    ensures SkipSpaces(s, i) < |s| ==> !IsSpace(s[SkipSpaces(s, i)])
    decreases |s| - i
  {
    if i < |s| && IsSpace(s[i]) {
      SkipSpacesFacts(s, i + 1);
    }
  }

  /** What `SkipNonSpaces` skips over and where it stops. */
  lemma {:induction false} SkipNonSpacesFacts(s: string, i: nat)
    requires i <= |s|
    ensures forall k :: i <= k < SkipNonSpaces(s, i) ==> !IsSpace(s[k])
    ensures SkipNonSpaces(s, i) < |s| ==> IsSpace(s[SkipNonSpaces(s, i)])
    decreases |s| - i
  {
    if i < |s| && !IsSpace(s[i]) {
      SkipNonSpacesFacts(s, i + 1);
    }
  }

  /** What `SkipDigits` skips over and where it stops. */
  lemma {:induction false} SkipDigitsFacts(s: string, i: nat)
    requires i <= |s|
    ensures forall k :: i <= k < SkipDigits(s, i) ==> IsDigit(s[k])
    ensures SkipDigits(s, i) < |s| ==> !IsDigit(s[SkipDigits(s, i)])
    decreases |s| - i
  {
    if i < |s| && IsDigit(s[i]) {
      SkipDigitsFacts(s, i + 1);
    }
  }

  /** `SkipSpaces` stops at the first non-space from `i` on. */
  lemma SkipSpacesTo(s: string, i: nat, j: nat)
    requires i <= j <= |s|
    requires forall k :: i <= k < j ==> IsSpace(s[k])
    requires j == |s| || !IsSpace(s[j])
    ensures SkipSpaces(s, i) == j
  {
    SkipSpacesFacts(s, i);
  }

  /** `SkipNonSpaces` stops at the first space from `i` on. */
  lemma SkipNonSpacesTo(s: string, i: nat, j: nat)
    requires i <= j <= |s|
    requires forall k :: i <= k < j ==> !IsSpace(s[k])
    requires j == |s| || IsSpace(s[j])
    ensures SkipNonSpaces(s, i) == j
  {
    SkipNonSpacesFacts(s, i);
  }

  /** `SkipDigits` stops at the first non-digit from `i` on. */
  lemma SkipDigitsTo(s: string, i: nat, j: nat)
    requires i <= j <= |s|
    requires forall k :: i <= k < j ==> IsDigit(s[k])
    requires j == |s| || !IsDigit(s[j])
    ensures SkipDigits(s, i) == j
  {
    SkipDigitsFacts(s, i);
  }

  /** The digits `SkipDigits` skips over, as a string of digits. */
  lemma SkipDigitsAll(s: string, i: nat)
    requires i <= |s|
    ensures AllDigits(s[i..SkipDigits(s, i)])
  {
    SkipDigitsFacts(s, i);
    var d := SkipDigits(s, i);
    forall k | 0 <= k < d - i ensures IsDigit(s[i..d][k]) {
      assert s[i..d][k] == s[i + k];
    }
  }

  /** One past the last non-space character of `s[lo..j]`, or `lo`. */
  function SkipSpacesBack(s: string, lo: nat, j: nat): (e: nat)
    requires lo <= j <= |s|
    ensures lo <= e <= j
    ensures forall k :: e <= k < j ==> IsSpace(s[k])
    ensures e > lo ==> !IsSpace(s[e - 1])
    decreases j - lo
  {
    if j == lo || !IsSpace(s[j - 1]) then j else SkipSpacesBack(s, lo, j - 1)
  }

  /** `String.prototype.trim`: drop leading and trailing white space. */
  function Trim(s: string): (r: string)
    ensures |r| <= |s|
    ensures r == "" || (!IsSpace(r[0]) && !IsSpace(r[|r| - 1]))
    ensures SkipSpaces(s, 0) + |r| <= |s|
    ensures r == s[SkipSpaces(s, 0)..SkipSpaces(s, 0) + |r|]
    ensures forall k :: 0 <= k < SkipSpaces(s, 0) ==> IsSpace(s[k])
    ensures forall k :: SkipSpaces(s, 0) + |r| <= k < |s| ==> IsSpace(s[k])
  {
    SkipSpacesFacts(s, 0);
    var a := SkipSpaces(s, 0);
    s[a..SkipSpacesBack(s, a, |s|)]
  }

  /** Trimming is idempotent. */
  lemma {:induction false} TrimIdempotent(s: string)
    ensures Trim(Trim(s)) == Trim(s)
  {
    var t := Trim(s);
    if t != "" {
      assert SkipSpaces(t, 0) == 0;
      assert SkipSpacesBack(t, 0, |t|) == |t|;
    } else {
      assert SkipSpaces(t, 0) == 0;
    }
  }

  /** A string that starts and ends with non-space characters is its own trim. */
  lemma TrimUntouched(s: string)
    requires s != [] && !IsSpace(s[0]) && !IsSpace(s[|s| - 1])
    ensures Trim(s) == s
  {
    assert SkipSpaces(s, 0) == 0;
    assert SkipSpacesBack(s, 0, |s|) == |s|;
  }

  /**
   * A carriage return before a line feed is white space, so splitting on
   * `\r?\n` and trimming gives the same lines as splitting on `\n` and trimming.
   */
  lemma {:induction false} TrimDropsCarriageReturn(s: string)
    ensures Trim(s + "\r") == Trim(s)
  {
    var t := s + "\r";
    var a := SkipSpaces(s, 0);
    SkipSpacesFacts(s, 0);
    assert t[..|s|] == s;
    SkipSpacesExtend(s, t, 0);
    if a < |s| {
      var b := SkipSpacesBack(s, a, |s|);
      SkipSpacesBackPast(s, a);
      SkipSpacesBackExtend(s, t, a, b);
      assert t[a..b] == s[a..b];
    }
  }

  /** Scanning back from the end stops past a non-space at `a`. */
  lemma SkipSpacesBackPast(s: string, a: nat)
    requires a < |s| && !IsSpace(s[a])
    ensures SkipSpacesBack(s, a, |s|) > a
  {
  }

  lemma {:induction false} SkipSpacesExtend(s: string, t: string, i: nat)
    requires i <= |s| < |t| && t[..|s|] == s
    requires forall k :: |s| <= k < |t| ==> IsSpace(t[k])
    ensures SkipSpaces(t, i) == if SkipSpaces(s, i) < |s| then SkipSpaces(s, i) else |t|
    decreases |s| - i
  {
    assert forall k :: 0 <= k < |s| ==> t[k] == s[k];
    if i < |s| && IsSpace(s[i]) {
      SkipSpacesExtend(s, t, i + 1);
    } else if i == |s| {
      SkipSpacesAllSpace(t, i);
    }
  }

  lemma {:induction false} SkipSpacesAllSpace(t: string, i: nat)
    requires i <= |t|
    requires forall k :: i <= k < |t| ==> IsSpace(t[k])
    ensures SkipSpaces(t, i) == |t|
    decreases |t| - i
  {
    if i < |t| {
      SkipSpacesAllSpace(t, i + 1);
    }
  }

  lemma {:induction false} SkipSpacesBackExtend(s: string, t: string, lo: nat, b: nat)
    requires lo < b <= |s| < |t| && t[..|s|] == s
    requires forall k :: b <= k < |t| ==> IsSpace(t[k])
    requires !IsSpace(s[b - 1])
    ensures SkipSpacesBack(t, lo, |t|) == b
  {
    var j := |t|;
    while j > b
      invariant b <= j <= |t|
      invariant SkipSpacesBack(t, lo, j) == SkipSpacesBack(t, lo, |t|)
    {
      j := j - 1;
    }
    assert t[b - 1] == s[b - 1];
  }

  /** First index at or after `i` holding `c`, or `|s|`. */
  function FindChar(s: string, c: char, i: nat): (j: nat)
    requires i <= |s|
    ensures i <= j <= |s|
    decreases |s| - i
  {
    if i == |s| || s[i] == c then i else FindChar(s, c, i + 1)
  }

  /** What `FindChar` skips over and where it stops. */
  lemma {:induction false} FindCharFacts(s: string, c: char, i: nat)
    requires i <= |s|
    ensures forall k :: i <= k < FindChar(s, c, i) ==> s[k] != c
    ensures FindChar(s, c, i) < |s| ==> s[FindChar(s, c, i)] == c
    decreases |s| - i
  {
    if i < |s| && s[i] != c {
      FindCharFacts(s, c, i + 1);
    }
  }

  /** `FindChar` stops at the first `c` from `i` on. */
  lemma FindCharTo(s: string, c: char, i: nat, j: nat)
    requires i <= j <= |s|
    requires forall k :: i <= k < j ==> s[k] != c
    requires j == |s| || s[j] == c
    ensures FindChar(s, c, i) == j
  {
    FindCharFacts(s, c, i);
  }

  /** `s.split(sep)` for a one-character separator. */
  function Split(s: string, sep: char): (parts: seq<string>)
    ensures |parts| >= 1
    ensures forall p :: p in parts ==> sep !in p
    decreases |s|
  {
    var i := FindChar(s, sep, 0);
    FindCharFacts(s, sep, 0);
    assert forall k :: 0 <= k < i ==> s[..i][k] != sep;
    if i == |s| then [s] else [s[..i]] + Split(s[i + 1..], sep)
  }

  /** `parts.join(sep)`. */
  function Join(parts: seq<string>, sep: char): string
  {
    if |parts| == 0 then "" else if |parts| == 1 then parts[0] else parts[0] + [sep] + Join(parts[1..], sep)
  }

  /** Splitting loses nothing: joining the pieces gives the text back. */
  lemma {:induction false} JoinSplit(s: string, sep: char)
    ensures Join(Split(s, sep), sep) == s
    decreases |s|
  {
    var i := FindChar(s, sep, 0);
    if i < |s| {
      FindCharFacts(s, sep, 0);
      var rest := Split(s[i + 1..], sep);
      assert Split(s, sep) == [s[..i]] + rest;
      JoinSplit(s[i + 1..], sep);
      JoinCons(s[..i], rest, sep);
      assert s == s[..i] + [sep] + s[i + 1..];
    }
  }

  lemma JoinCons(p: string, rest: seq<string>, sep: char)
    requires |rest| >= 1
    ensures Join([p] + rest, sep) == p + [sep] + Join(rest, sep)
  {
    assert ([p] + rest)[0] == p && ([p] + rest)[1..] == rest;
  }

  /** Joining pieces that do not contain the separator and splitting again gives the pieces back. */
  lemma {:induction false} SplitJoin(parts: seq<string>, sep: char)
    requires |parts| >= 1
    requires forall p :: p in parts ==> sep !in p
    ensures Split(Join(parts, sep), sep) == parts
    decreases |parts|
  {
    var s := Join(parts, sep);
    var p0 := parts[0];
    assert p0 in parts;
    if |parts| == 1 {
      FindCharAbsent(s, sep, 0);
    } else {
      assert s == p0 + [sep] + Join(parts[1..], sep);
      SplitCons(p0, Join(parts[1..], sep), sep);
      SplitJoin(parts[1..], sep);
    }
  }

  /** A first part without the separator splits off on its own. */
  lemma SplitCons(p0: string, rest: string, sep: char)
    requires sep !in p0
    ensures Split(p0 + [sep] + rest, sep) == [p0] + Split(rest, sep)
  {
    var s := p0 + [sep] + rest;
    forall k | 0 <= k < |p0| ensures s[k] != sep {
      assert s[k] == p0[k];
    }
    FindCharAt(s, sep, |p0|);
    assert s[..|p0|] == p0;
    assert s[|p0| + 1..] == rest;
  }

  lemma {:induction false} FindCharAbsent(s: string, c: char, i: nat)
    requires i <= |s|
    requires c !in s
    ensures FindChar(s, c, i) == |s|
    decreases |s| - i
  {
    if i < |s| {
      assert s[i] in s;
      FindCharAbsent(s, c, i + 1);
    }
  }

  lemma {:induction false} FindCharAt(s: string, c: char, j: nat)
    requires j < |s| && s[j] == c
    requires forall k :: 0 <= k < j ==> s[k] != c
    ensures FindChar(s, c, 0) == j
  {
    FindCharFacts(s, c, 0);
  }

  /** `pat` occurs in `s` at index `k`. */
  predicate OccursAt(s: string, pat: string, k: int) {
    0 <= k && k + |pat| <= |s| && s[k..k + |pat|] == pat
  }

  /** `s.indexOf(pat, from)`: the first occurrence at or after `from`, or -1. */
  function IndexOf(s: string, pat: string, from: nat): (r: int)
    requires from <= |s|
    ensures r == -1 || from <= r
    ensures r >= 0 ==> OccursAt(s, pat, r)
    ensures forall k :: from <= k < (if r < 0 then |s| + 1 else r) ==> !OccursAt(s, pat, k)
    decreases |s| - from
  {
    if OccursAt(s, pat, from) then from
    else if from == |s| then -1
    else IndexOf(s, pat, from + 1)
  }

  /** `s.includes(pat)`. */
  predicate Contains(s: string, pat: string) {
    exists k :: 0 <= k <= |s| && OccursAt(s, pat, k)
  }

  lemma ContainsIndexOf(s: string, pat: string)
    ensures Contains(s, pat) <==> IndexOf(s, pat, 0) >= 0
  {
    if Contains(s, pat) {
      var k :| OccursAt(s, pat, k);
    }
  }

  /** Index of the last `c` before `j`, or -1. */
  function LastIndexOf(s: string, c: char, j: nat): (r: int)
    requires j <= |s|
    ensures -1 <= r < j
    ensures r >= 0 ==> s[r] == c
    ensures forall k :: r < k < j ==> s[k] != c
  {
    if j == 0 then -1 else if s[j - 1] == c then j - 1 else LastIndexOf(s, c, j - 1)
  }

  /** `path.basename(p)` on `/`-separated paths: the text after the last `/`. */
  function Basename(p: string): (r: string)
    ensures '/' !in r
    ensures EndsWith(p, r)
    ensures |r| == |p| || p[|p| - |r| - 1] == '/'
  {
    var k := LastIndexOf(p, '/', |p|);
    p[k + 1..]
  }

  /** `s.startsWith(p)`. */
  predicate StartsWith(s: string, p: string) {
    |p| <= |s| && s[..|p|] == p
  }

  /** `s.endsWith(p)`. */
  predicate EndsWith(s: string, p: string) {
    |p| <= |s| && s[|s| - |p|..] == p
  }

  /** `toLowerCase` on one character; only ASCII letters are folded in this model. */
  function LowerChar(c: char): char {
    if 'A' <= c <= 'Z' then (c as int + 32) as char else c
  }

  /** `s.toLowerCase()` (ASCII letters only). */
  function Lower(s: string): (r: string)
    ensures |r| == |s|
  {
    seq(|s|, i requires 0 <= i < |s| => LowerChar(s[i]))
  }

  /** A literal of lower-case letters and punctuation matches `s` at `i` under the `/i` flag. */
  predicate MatchesAt(s: string, i: nat, lit: string) {
    i + |lit| <= |s| && forall k :: 0 <= k < |lit| ==> LowerChar(s[i + k]) == lit[k]
  }

  /** `s.replace(/a/g, b)` for single characters. */
  function ReplaceChar(s: string, a: char, b: char): (r: string)
    ensures |r| == |s|
    ensures forall i :: 0 <= i < |s| ==> r[i] == (if s[i] == a then b else s[i])
  {
    seq(|s|, i requires 0 <= i < |s| => if s[i] == a then b else s[i])
  }

  /** `s.replace(pat, rep)` with a string pattern: only the first occurrence is replaced. */
  function ReplaceFirst(s: string, pat: string, rep: string): (r: string)
    ensures IndexOf(s, pat, 0) < 0 ==> r == s
    ensures IndexOf(s, pat, 0) >= 0 ==>
      var k := IndexOf(s, pat, 0); r == s[..k] + rep + s[k + |pat|..]
  {
    var k := IndexOf(s, pat, 0);
    if k < 0 then s else s[..k] + rep + s[k + |pat|..]
  }

  function DigitValue(c: char): nat
    requires IsDigit(c)
  {
    c as int - '0' as int
  }

  /** `parseInt` of a run of decimal digits. */
  function DigitsValue(s: string): nat
    requires AllDigits(s)
  {
    if s == [] then 0 else DigitsValue(s[..|s| - 1]) * 10 + DigitValue(s[|s| - 1])
  }

  function DigitChar(d: nat): (c: char)
    requires d < 10
    ensures IsDigit(c) && DigitValue(c) == d
  {
    ('0' as int + d) as char
  }

  /** Decimal rendering of a natural number, as `String(n)` prints it. */
  function NatToString(n: nat): (s: string)
    ensures |s| >= 1 && AllDigits(s)
  {
    if n < 10 then [DigitChar(n)] else NatToString(n / 10) + [DigitChar(n % 10)]
  }

  /** `parseInt` reads back what `String` printed. */
  lemma {:induction false} NatToStringRoundTrip(n: nat)
    ensures DigitsValue(NatToString(n)) == n
  {
    if n >= 10 {
      NatToStringRoundTrip(n / 10);
      var s := NatToString(n);
      assert s[..|s| - 1] == NatToString(n / 10);
    }
  }
}
