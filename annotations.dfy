/**
 * Line annotations in generated servlet source (`parseLineMapping`): the
 * comment forms Jasper and other JSP compilers leave next to generated code,
 * read by four regular expressions tried in order. Each regular expression is
 * written out as the match the JavaScript engine finds: leftmost start,
 * greedy quantifiers, ASCII case folding under the `/i` flag.
 */
module Annotations {
  import opened Options
  import opened Text

  /** The JSP line and the file name an annotation names. */
  datatype Match = Match(jspLine: nat, file: string)

  /** `s[e - 4..e]` is `.jsp` in any letter case. */
  predicate JspAt(s: string, e: nat) {
    4 <= e <= |s| && s[e - 4] == '.' && LowerChar(s[e - 3]) == 'j'
    && LowerChar(s[e - 2]) == 's' && LowerChar(s[e - 1]) == 'p'
  }

  /**
   * The leftmost start from `k` on where `at` matches: how an unanchored
   * regular expression is searched for.
   */
  function Leftmost<T>(s: string, k: nat, at: (string, nat) --> Option<T>): Option<T>
    requires k <= |s|
    requires forall i :: k <= i <= |s| ==> at.requires(s, i)
    decreases |s| - k
  {
    var m := at(s, k);
    if m.Some? then m
    else if k == |s| then None
    else Leftmost(s, k + 1, at)
  }

  /**
   * `//line\s+(\d+)\s+"([^"]*\.jsp)"` matched at `a`. The quoted name ends at
   * the first `"` after the opening one and must end in `.jsp`.
   */
  function LineCommentAt(s: string, a: nat): (r: Option<Match>)
    requires a <= |s|
    ensures r.Some? ==> JspAt(r.value.file, |r.value.file|) && '"' !in r.value.file
  {
    if !MatchesAt(s, a, "//line") then None
    else
      var c := SkipSpaces(s, a + 6);
      var d := SkipDigits(s, c);
      var e := SkipSpaces(s, d);
      if c == a + 6 || d == c || e == d || e == |s| || s[e] != '"' then None
      else
        var f := FindChar(s, '"', e + 1);
        if f == |s| || !JspAt(s[e + 1..f], f - (e + 1)) then None
        else
          SkipDigitsAll(s, c);
          QuotedName(s, e + 1);
          Some(Match(DigitsValue(s[c..d]), s[e + 1..f]))
  }

  /** The text from `i` up to the next `"` holds no `"`. */
  lemma QuotedName(s: string, i: nat)
    requires i <= |s|
    ensures '"' !in s[i..FindChar(s, '"', i)]
  {
    var f := FindChar(s, '"', i);
    FindCharFacts(s, '"', i);
    assert forall k :: i <= k < f ==> s[i..f][k - i] == s[k];
  }

  /** Pattern 1, `^\s*\/\/line\s+(\d+)\s+"([^"]*\.jsp)"` with `/i`. */
  function Pattern1(s: string): Option<Match> {
    LineCommentAt(s, SkipSpaces(s, 0))
  }

  /**
   * The unanchored `\/\/line\s+(\d+)\s+"[^"]*\.jsp"` with `/i` of the Java
   * source fallbacks, searched for from `k` on.
   */
  function FirstLineComment(s: string, k: nat): Option<Match>
    requires k <= |s|
  {
    Leftmost(s, k, LineCommentAt)
  }

  /**
   * `[^\s]+\.jsp` ending at or before `e`: the greedy match is the longest,
   * so the greatest end in `[p + 5, e]` where `.jsp` ends; when `closed`,
   * it must also be followed by `\s*\*\/`.
   */
  function JspEnd(s: string, p: nat, e: nat, closed: bool): (r: Option<nat>)
    requires p <= e <= |s|
    ensures r.Some? ==> p + 5 <= r.value <= e && JspAt(s, r.value)
    ensures r.Some? && closed ==> MatchesAt(s, SkipSpaces(s, r.value), "*/")
    decreases e - p
  {
    if e < p + 5 then None
    else if JspAt(s, e) && (!closed || MatchesAt(s, SkipSpaces(s, e), "*/")) then Some(e)
    else JspEnd(s, p, e - 1, closed)
  }

  /** `\s*([^\s]+\.jsp)` from `i`, followed by `\s*\*\/` when `closed`. */
  function FileGroup(s: string, i: nat, closed: bool): (r: Option<string>)
    requires i <= |s|
    ensures r.Some? ==> JspAt(r.value, |r.value|)
  {
    var p := SkipSpaces(s, i);
    match JspEnd(s, p, SkipNonSpaces(s, p), closed)
    case None => None
    case Some(e) =>
      assert s[p..e][e - p - 4] == s[e - 4] && s[p..e][e - p - 3] == s[e - 3];
      assert s[p..e][e - p - 2] == s[e - 2] && s[p..e][e - p - 1] == s[e - 1];
      Some(s[p..e])
  }

  /** `\s+(\d+),\s*` from `i`: the number and the index after the spaces. */
  function NumberComma(s: string, i: nat): (r: Option<(nat, nat)>)
    requires i <= |s|
    ensures r.Some? ==> r.value.1 <= |s|
  {
    var c := SkipSpaces(s, i);
    var d := SkipDigits(s, c);
    if c == i || d == c || d == |s| || s[d] != ',' then None
    else
      SkipDigitsAll(s, c);
      Some((DigitsValue(s[c..d]), SkipSpaces(s, d + 1)))
  }

  /** `^\s*` then `open`, then `\s*Line` under `/i`: the index after `Line`. */
  function Opening(s: string, open: string): (r: Option<nat>)
    ensures r.Some? ==> r.value <= |s|
  {
    var a := SkipSpaces(s, 0);
    if !MatchesAt(s, a, open) then None
    else
      var b := SkipSpaces(s, a + |open|);
      if !MatchesAt(s, b, "line") then None else Some(b + 4)
  }

  /** Pattern 2, `^\s*\/\/\s*Line\s+(\d+),\s*JSP\s*file:\s*([^\s]+\.jsp)` with `/i`. */
  function Pattern2(s: string): (r: Option<Match>)
    ensures r.Some? ==> JspAt(r.value.file, |r.value.file|)
  {
    match Opening(s, "//")
    case None => None
    case Some(i) => JspFileTail(s, i)
  }

  /** The rest of pattern 2 from `i`: `\s+(\d+),\s*JSP\s*file:\s*([^\s]+\.jsp)`. */
  function JspFileTail(s: string, i: nat): (r: Option<Match>)
    requires i <= |s|
    ensures r.Some? ==> JspAt(r.value.file, |r.value.file|)
  {
    match NumberComma(s, i)
    case None => None
    case Some((n, e)) =>
      match JspFileRest(s, e)
      case None => None
      case Some(file) => Some(Match(n, file))
  }

  /** After the number and its comma: `JSP`, spaces, `file:` and the file group. */
  function JspFileRest(s: string, e: nat): (r: Option<string>)
    requires e <= |s|
    ensures r.Some? ==> JspAt(r.value, |r.value|)
  {
    if !MatchesAt(s, e, "jsp") then None
    else
      var f := SkipSpaces(s, e + 3);
      if !MatchesAt(s, f, "file:") then None
      else FileGroup(s, f + 5, false)
  }

  /** Pattern 3, `^\s*\/\*\s*Line\s+(\d+),\s*file:\s*([^\s]+\.jsp)\s*\*\/` with `/i`. */
  function Pattern3(s: string): (r: Option<Match>)
    ensures r.Some? ==> JspAt(r.value.file, |r.value.file|)
  {
    match Opening(s, "/*")
    case None => None
    case Some(i) => BlockTail(s, i)
  }

  /** The rest of pattern 3 from `i`: `\s+(\d+),\s*file:\s*([^\s]+\.jsp)\s*\*\/`. */
  function BlockTail(s: string, i: nat): (r: Option<Match>)
    requires i <= |s|
    ensures r.Some? ==> JspAt(r.value.file, |r.value.file|)
  {
    match NumberComma(s, i)
    case None => None
    case Some((n, e)) =>
      if !MatchesAt(s, e, "file:") then None
      else
        match FileGroup(s, e + 5, true)
        case None => None
        case Some(file) => Some(Match(n, file))
  }

  /** First index at or after `i` holding a line terminator, or `|s|`. */
  function SkipToTerminator(s: string, i: nat): (j: nat)
    requires i <= |s|
    ensures i <= j <= |s|
    decreases |s| - i
  {
    if i == |s| || IsLineTerminator(s[i]) then i else SkipToTerminator(s, i + 1)
  }

  /** `line\s*\d` starts at `m`. */
  predicate LineRefAt(s: string, m: nat) {
    MatchesAt(s, m, "line") && SkipSpaces(s, m + 4) < |s| && IsDigit(s[SkipSpaces(s, m + 4)])
  }

  /** The greatest `m` in `[lo, hi]` where `line\s*\d` starts: the greedy `.*` backs off to it. */
  function LastLineRef(s: string, lo: nat, hi: nat): (r: Option<nat>)
    requires lo <= hi <= |s|
    ensures r.Some? ==> lo <= r.value <= hi && LineRefAt(s, r.value)
    decreases hi - lo
  {
    if LineRefAt(s, hi) then Some(hi)
    else if hi == lo then None
    else LastLineRef(s, lo, hi - 1)
  }

  /** `\/\/.*line\s*(\d+)` with `/i`, matched at `k`: `.` does not cross a line terminator. */
  function Pattern4At(s: string, k: nat): Option<nat>
    requires k <= |s|
  {
    if !MatchesAt(s, k, "//") then None
    else
      match LastLineRef(s, k + 2, SkipToTerminator(s, k + 2))
      case None => None
      case Some(m) =>
        var d := SkipSpaces(s, m + 4);
        SkipDigitsAll(s, d);
        Some(DigitsValue(s[d..SkipDigits(s, d)]))
  }

  /** Pattern 4, unanchored: the leftmost start where it matches. */
  function Pattern4(s: string): Option<nat> {
    Leftmost(s, 0, Pattern4At)
  }

  /** What one servlet line contributes. */
  datatype Annotation = Unannotated | ForOtherFile | Annotated(jspLine: nat)

  /**
   * `!jspFilePath || jspFile.includes(path.basename(jspFilePath))`; an absent
   * target path is the empty string, which JavaScript also treats as false.
   */
  function Accept(m: Match, target: string): Annotation {
    if target == "" || Contains(m.file, Basename(target)) then Annotated(m.jspLine) else ForOtherFile
  }

  /**
   * The body of the `forEach` in `parseLineMapping`: the first pattern that
   * matches decides, even when its file filter then rejects the line.
   * Pattern 4 checks `.jsp` case-sensitively on the whole line.
   */
  function Annotate(line: string, target: string): Annotation {
    match Pattern1(line)
    case Some(m) => Accept(m, target)
    case None =>
      match Pattern2(line)
      case Some(m) => Accept(m, target)
      case None =>
        match Pattern3(line)
        case Some(m) => Accept(m, target)
        case None =>
          match Pattern4(line)
          case Some(n) => if Contains(line, ".jsp") then Annotated(n) else Unannotated
          case None => Unannotated
  }

  // ---------------------------------------------------------------------
  // The leftmost search
  // ---------------------------------------------------------------------

  /** Starts where `at` finds nothing are passed over. */
  lemma {:induction false} LeftmostSkips<T>(s: string, k: nat, a: nat, at: (string, nat) --> Option<T>)
    requires k <= a <= |s|
    requires forall i :: k <= i <= |s| ==> at.requires(s, i)
    requires forall i :: k <= i < a ==> at(s, i).None?
    ensures Leftmost(s, k, at) == Leftmost(s, a, at)
    decreases a - k
  {
    if k < a {
      LeftmostSkips(s, k + 1, a, at);
    }
  }

  /** The leftmost search finds nothing exactly when no start matches. */
  lemma {:induction false} LeftmostNone<T>(s: string, k: nat, at: (string, nat) --> Option<T>)
    requires k <= |s|
    requires forall i :: k <= i <= |s| ==> at.requires(s, i)
    ensures Leftmost(s, k, at).None? <==> forall i :: k <= i <= |s| ==> at(s, i).None?
    decreases |s| - k
  {
    if k < |s| {
      LeftmostNone(s, k + 1, at);
    }
  }

  // ---------------------------------------------------------------------
  // The annotations as written, read back
  // ---------------------------------------------------------------------

  /** The annotation Jasper writes beside generated code: `//line N "file"`. */
  function LineComment(n: nat, file: string): string {
    "//line " + NatToString(n) + " \"" + file + "\""
  }

  /** The `//line` matcher on a line laid out as the annotation is, index by index. */
  lemma LineCommentAtLayout(s: string, a: nat, d: nat, f: nat)
    requires a + 7 < d && d + 2 <= f < |s| && s[a..a + 6] == "//line" && s[a + 6] == ' '
    requires forall i :: a + 7 <= i < d ==> IsDigit(s[i])
    requires s[d] == ' ' && s[d + 1] == '"' && s[f] == '"' && '"' !in s[d + 2..f]
    requires JspAt(s[d + 2..f], f - (d + 2))
    ensures LineCommentAt(s, a) == Some(Match(DigitsValue(s[a + 7..d]), s[d + 2..f]))
  {
    LineCommentAtSteps(s, a, d, f);
  }

  /** What each step of `LineCommentAt` finds on the layout `LineCommentAtLayout` describes. */
  lemma LineCommentAtSteps(s: string, a: nat, d: nat, f: nat)
    requires a + 7 < d && d + 2 <= f < |s| && s[a..a + 6] == "//line" && s[a + 6] == ' '
    requires forall i :: a + 7 <= i < d ==> IsDigit(s[i])
    requires s[d] == ' ' && s[d + 1] == '"' && s[f] == '"' && '"' !in s[d + 2..f]
    ensures MatchesAt(s, a, "//line") && SkipSpaces(s, a + 6) == a + 7
    ensures SkipDigits(s, a + 7) == d && SkipSpaces(s, d) == d + 1 && FindChar(s, '"', d + 2) == f
  {
    forall k | 0 <= k < 6 ensures LowerChar(s[a + k]) == "//line"[k] {
      assert s[a + k] == s[a..a + 6][k];
    }
    SkipSpacesTo(s, a + 6, a + 7);
    SkipDigitsTo(s, a + 7, d);
    SkipSpacesTo(s, d, d + 1);
    forall i | d + 2 <= i < f ensures s[i] != '"' {
      assert s[i] == s[d + 2..f][i - (d + 2)];
    }
    FindCharTo(s, '"', d + 2, f);
  }

  /** A `//line` annotation is read back at its start, with its number and file. */
  lemma LineCommentAtReads(pre: string, n: nat, file: string, post: string)
    requires '"' !in file && JspAt(file, |file|)
    ensures LineCommentAt(pre + LineComment(n, file) + post, |pre|) == Some(Match(n, file))
  {
    var digits := NatToString(n);
    var s := pre + LineComment(n, file) + post;
    var a := |pre|;
    var c := a + 7;
    var d := c + |digits|;
    var f := d + 2 + |file|;
    assert s == pre + "//line " + digits + " \"" + file + "\"" + post;
    assert s[a..a + 6] == "//line";
    assert s[a + 6] == ' ';
    assert s[c..d] == digits;
    assert s[d] == ' ' && s[d + 1] == '"' && s[f] == '"';
    assert s[d + 2..f] == file;
    LineCommentAtLayout(s, a, d, f);
    NatToStringRoundTrip(n);
  }

  /** The annotation sits after indentation only: pattern 1 reads it. */
  lemma Pattern1Reads(indent: string, n: nat, file: string, post: string)
    requires forall i :: 0 <= i < |indent| ==> IsSpace(indent[i])
    requires '"' !in file && JspAt(file, |file|)
    ensures Pattern1(indent + LineComment(n, file) + post) == Some(Match(n, file))
  {
    var s := indent + LineComment(n, file) + post;
    assert s == indent + (LineComment(n, file) + post);
    assert s[|indent|] == '/';
    SkipSpacesTo(s, 0, |indent|);
    LineCommentAtReads(indent, n, file, post);
  }

  /** No match of `//line` starts on white space. */
  lemma NoLineCommentOnSpace(s: string, k: nat)
    requires k < |s| && IsSpace(s[k])
    ensures LineCommentAt(s, k) == None
  {
    if k + 6 <= |s| {
      assert LowerChar(s[k + 0]) != "//line"[0];
    }
  }

  /** The unanchored form finds the same annotation: nothing before it can start a match. */
  lemma FallbackReads(indent: string, n: nat, file: string, post: string)
    requires forall i :: 0 <= i < |indent| ==> IsSpace(indent[i])
    requires '"' !in file && JspAt(file, |file|)
    ensures FirstLineComment(indent + LineComment(n, file) + post, 0) == Some(Match(n, file))
  {
    var s := indent + LineComment(n, file) + post;
    assert s == indent + (LineComment(n, file) + post);
    LineCommentAtReads(indent, n, file, post);
    forall i | 0 <= i < |indent| ensures LineCommentAt(s, i).None? {
      assert s[i] == indent[i];
      NoLineCommentOnSpace(s, i);
    }
    LeftmostSkips(s, 0, |indent|, LineCommentAt);
  }

  /**
   * A `//line N "file"` annotation line contributes JSP line `N` when no
   * target is given or `file` contains the target's base name, and is
   * claimed for another file otherwise.
   */
  lemma AnnotateLineComment(indent: string, n: nat, file: string, post: string, target: string)
    requires forall i :: 0 <= i < |indent| ==> IsSpace(indent[i])
    requires '"' !in file && JspAt(file, |file|)
    ensures Annotate(indent + LineComment(n, file) + post, target)
      == if target == "" || Contains(file, Basename(target)) then Annotated(n) else ForOtherFile
  {
    Pattern1Reads(indent, n, file, post);
  }

  /** The annotation form pattern 2 describes: `// Line N, JSP file: file`. */
  function JspFileComment(n: nat, file: string): string {
    "// Line " + NatToString(n) + ", JSP file: " + file
  }

  /** The annotation form pattern 3 describes: `/* Line N, file: file */`. */
  function BlockComment(n: nat, file: string): string {
    "/* Line " + NatToString(n) + ", file: " + file + " */"
  }

  /** A file name the `[^\s]+\.jsp` group takes whole. */
  predicate PlainJspName(file: string) {
    |file| >= 5 && JspAt(file, |file|) && forall i :: 0 <= i < |file| ==> !IsSpace(file[i])
  }

  /** `\s+(\d+),\s*` on a line laid out as ` digits, x`. */
  lemma NumberCommaLayout(s: string, i: nat, d: nat)
    requires i + 1 < d && d + 2 < |s| && s[i] == ' ' && s[d] == ',' && s[d + 1] == ' '
    requires forall k :: i + 1 <= k < d ==> IsDigit(s[k])
    requires !IsSpace(s[d + 2])
    ensures NumberComma(s, i) == Some((DigitsValue(s[i + 1..d]), d + 2))
  {
    SkipSpacesTo(s, i, i + 1);
    SkipDigitsTo(s, i + 1, d);
    SkipSpacesTo(s, d + 1, d + 2);
  }

  /** `\s*([^\s]+\.jsp)` on a line laid out as ` file` with `file` ending at `e`. */
  lemma FileGroupLayout(s: string, i: nat, e: nat, closed: bool)
    requires i + 6 <= e <= |s| && s[i] == ' '
    requires forall k :: i + 1 <= k < e ==> !IsSpace(s[k])
    requires e == |s| || IsSpace(s[e])
    requires JspAt(s, e) && (closed ==> MatchesAt(s, SkipSpaces(s, e), "*/"))
    ensures FileGroup(s, i, closed) == Some(s[i + 1..e])
  {
    SkipSpacesTo(s, i, i + 1);
    SkipNonSpacesTo(s, i + 1, e);
  }

  /** A `.jsp` name's suffix, read where it sits in a longer line. */
  lemma JspAtShift(s: string, x: nat, file: string)
    requires x + |file| <= |s| && s[x..x + |file|] == file && JspAt(file, |file|)
    ensures JspAt(s, x + |file|)
  {
    assert s[x + |file| - 4..x + |file|] == file[|file| - 4..];
  }

  // The opening of patterns 2 and 3 (a comment opener, a space, `Line`, a space), after indentation.
  lemma OpeningLayout(s: string, a: nat, open: string)
    requires a + 8 <= |s| && forall i :: 0 <= i < a ==> IsSpace(s[i])
    requires open == "//" || open == "/*"
    requires s[a..a + 2] == open && s[a + 2] == ' ' && s[a + 3..a + 7] == "Line" && s[a + 7] == ' '
    ensures Opening(s, open) == Some(a + 7)
  {
    assert s[a] == s[a..a + 2][0];
    SkipSpacesTo(s, 0, a);
    forall k | 0 <= k < 2 ensures LowerChar(s[a + k]) == open[k] {
      assert s[a + k] == open[k];
    }
    assert MatchesAt(s, a, open);
    assert s[a + 3] == s[a + 3..a + 7][0];
    SkipSpacesTo(s, a + 2, a + 3);
    forall k | 0 <= k < 4 ensures LowerChar(s[a + 3 + k]) == "line"[k] {
      assert s[a + 3 + k] == s[a + 3..a + 7][k];
    }
    assert MatchesAt(s, a + 3, "line");
  }

  /** The rest of pattern 2 on a line laid out, index by index, as ` N, JSP file: name`. */
  lemma JspFileTailLayout(s: string, i: nat, d: nat, e: nat)
    requires i + 1 < d && d + 17 <= e <= |s| && s[i] == ' '
    requires forall k :: i + 1 <= k < d ==> IsDigit(s[k])
    requires s[d] == ',' && s[d + 1] == ' ' && s[d + 2..d + 5] == "JSP" && s[d + 5] == ' '
    requires s[d + 6..d + 11] == "file:" && s[d + 11] == ' '
    requires forall k :: d + 12 <= k < e ==> !IsSpace(s[k])
    requires e == |s| || IsSpace(s[e])
    requires JspAt(s, e)
    ensures JspFileTail(s, i) == Some(Match(DigitsValue(s[i + 1..d]), s[d + 12..e]))
  {
    NumberCommaLayout(s, i, d);
    JspFileRestLayout(s, d, e);
  }

  /** ` JSP file: name` after the comma at `d`, the name ending at `e`. */
  lemma JspFileRestLayout(s: string, d: nat, e: nat)
    requires d + 17 <= e <= |s|
    requires s[d + 2..d + 5] == "JSP" && s[d + 5] == ' '
    requires s[d + 6..d + 11] == "file:" && s[d + 11] == ' '
    requires forall k :: d + 12 <= k < e ==> !IsSpace(s[k])
    requires e == |s| || IsSpace(s[e])
    requires JspAt(s, e)
    ensures JspFileRest(s, d + 2) == Some(s[d + 12..e])
  {
    assert s[d + 2] == s[d + 2..d + 5][0];
    assert s[d + 6] == s[d + 6..d + 11][0];
    forall k | 0 <= k < 3 ensures LowerChar(s[d + 2 + k]) == "jsp"[k] {
      assert s[d + 2 + k] == s[d + 2..d + 5][k];
    }
    SkipSpacesTo(s, d + 5, d + 6);
    forall k | 0 <= k < 5 ensures LowerChar(s[d + 6 + k]) == "file:"[k] {
      assert s[d + 6 + k] == s[d + 6..d + 11][k];
    }
    FileGroupLayout(s, d + 11, e, false);
  }

  /**
   * An indented `// Line N, JSP file: name` with the number at `[a + 8, d)`
   * and the name at `[d + 12, e)`, index by index.
   */
  predicate JspFileCommentAt(s: string, a: nat, d: nat, e: nat) {
    && a + 8 < d && d + 17 <= e <= |s|
    && (forall i :: 0 <= i < a ==> IsSpace(s[i]))
    && s[a..a + 2] == "//" && s[a + 2] == ' ' && s[a + 3..a + 7] == "Line" && s[a + 7] == ' '
    && (forall k :: a + 8 <= k < d ==> IsDigit(s[k]))
    && s[d] == ',' && s[d + 1] == ' ' && s[d + 2..d + 5] == "JSP" && s[d + 5] == ' '
    && s[d + 6..d + 11] == "file:" && s[d + 11] == ' '
    && (forall k :: d + 12 <= k < e ==> !IsSpace(s[k]))
    && (e == |s| || IsSpace(s[e]))
    && JspAt(s, e)
  }

  /** The pattern-2 annotation, written out, is laid out as `JspFileCommentAt` says. */
  lemma JspFileCommentLaidOut(indent: string, n: nat, file: string, post: string)
    requires forall i :: 0 <= i < |indent| ==> IsSpace(indent[i])
    requires PlainJspName(file) && (post == "" || IsSpace(post[0]))
    ensures var s := indent + JspFileComment(n, file) + post; var a := |indent|;
      var d := a + 8 + |NatToString(n)|; var e := d + 12 + |file|;
      JspFileCommentAt(s, a, d, e) && s[a + 8..d] == NatToString(n) && s[d + 12..e] == file
  {
    JspFileCommentHead(indent, n, file, post);
    JspFileCommentMiddle(indent, n, file, post);
    JspFileCommentName(indent, n, file, post);
  }

  /** Pattern 2 on a line laid out, index by index, as an indented `// Line N, JSP file: name`. */
  lemma Pattern2Layout(s: string, a: nat, d: nat, e: nat, n: nat, file: string)
    requires JspFileCommentAt(s, a, d, e)
    requires s[a + 8..d] == NatToString(n) && s[d + 12..e] == file
    ensures Pattern2(s) == Some(Match(n, file))
  {
    OpeningLayout(s, a, "//");
    JspFileTailLayout(s, a + 7, d, e);
    NatToStringRoundTrip(n);
  }

  /** Where the indentation, `// Line ` and the number sit in an indented pattern-2 annotation. */
  lemma JspFileCommentHead(indent: string, n: nat, file: string, post: string)
    requires forall i :: 0 <= i < |indent| ==> IsSpace(indent[i])
    ensures var s := indent + JspFileComment(n, file) + post; var a := |indent|;
      var d := a + 8 + |NatToString(n)|;
      && d + 12 + |file| <= |s|
      && (forall i :: 0 <= i < a ==> IsSpace(s[i]))
      && s[a..a + 2] == "//" && s[a + 2] == ' ' && s[a + 3..a + 7] == "Line" && s[a + 7] == ' '
      && s[a + 8..d] == NatToString(n)
      && (forall k :: a + 8 <= k < d ==> IsDigit(s[k]))
  {
    var s := indent + JspFileComment(n, file) + post;
    var digits := NatToString(n);
    var a := |indent|;
    assert s == indent + "// Line " + digits + (", JSP file: " + file + post);
    forall k | a + 8 <= k < a + 8 + |digits| ensures IsDigit(s[k]) {
      assert s[k] == digits[k - (a + 8)];
    }
  }

  /** Where `, JSP file: ` sits in an indented pattern-2 annotation. */
  lemma JspFileCommentMiddle(indent: string, n: nat, file: string, post: string)
    ensures var s := indent + JspFileComment(n, file) + post;
      var d := |indent| + 8 + |NatToString(n)|;
      && d + 12 <= |s|
      && s[d] == ',' && s[d + 1] == ' ' && s[d + 2..d + 5] == "JSP" && s[d + 5] == ' '
      && s[d + 6..d + 11] == "file:" && s[d + 11] == ' '
  {
    var s := indent + JspFileComment(n, file) + post;
    var pre := indent + "// Line " + NatToString(n);
    assert s == pre + ", JSP file: " + (file + post);
  }

  /** Where the name sits in an indented pattern-2 annotation, and what follows it. */
  lemma JspFileCommentName(indent: string, n: nat, file: string, post: string)
    requires PlainJspName(file) && (post == "" || IsSpace(post[0]))
    ensures var s := indent + JspFileComment(n, file) + post;
      var x := |indent| + 20 + |NatToString(n)|;
      var e := x + |file|;
      && e <= |s|
      && s[x..e] == file
      && (forall k :: x <= k < e ==> !IsSpace(s[k]))
      && (e == |s| || IsSpace(s[e]))
      && JspAt(s, e)
  {
    var s := indent + JspFileComment(n, file) + post;
    var pre := indent + "// Line " + NatToString(n) + ", JSP file: ";
    assert s == pre + file + post;
    var x := |pre|;
    var e := x + |file|;
    if post != "" {
      assert s[e] == post[0];
    }
    forall k | x <= k < e ensures !IsSpace(s[k]) {
      assert s[k] == file[k - x];
    }
    JspAtShift(s, x, file);
  }
}
