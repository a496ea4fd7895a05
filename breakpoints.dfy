/**
 * `JspBreakpointManager`: a breakpoint set on a JSP line becomes a breakpoint
 * on the servlet line its `// Line N, JSP file:` comment names, and the
 * manager keeps, per file, the JSP breakpoints and the servlet breakpoints
 * it created in two parallel lists.
 *
 * The file system is passed in: `servletJavaFile` is what
 * `getServletSourceFilePath` answers for the JSP (`None` for `null`), and
 * `servletContent` the servlet file's text (`None` when it does not exist).
 */
module Breakpoints {
  import opened Options
  import opened Text
  import opened Annotations

  // ---------------------------------------------------------------------
  // The servlet comment scan of mapJspLineToServletLine
  // ---------------------------------------------------------------------

  /**
   * `\/\/\s*Line\s+(\d+),\s*JSP\s*file:` with `/i`, matched at `a`: the
   * number. Every quantifier is followed by a character it cannot take, so
   * the greedy match is the only one.
   */
  function JspLineCommentAt(s: string, a: nat): Option<nat>
    requires a <= |s|
  {
    if !MatchesAt(s, a, "//") then None
    else
      var b := SkipSpaces(s, a + 2);
      if !MatchesAt(s, b, "line") then None
      else
        match NumberComma(s, b + 4)
        case None => None
        case Some((n, e)) =>
          if !MatchesAt(s, e, "jsp") then None
          else
            var f := SkipSpaces(s, e + 3);
            if MatchesAt(s, f, "file:") then Some(n) else None
  }

  /** `line.match(...)` for the unanchored comment pattern: the number at the leftmost match. */
  function CommentNumber(line: string): Option<nat> {
    Leftmost(line, 0, JspLineCommentAt)
  }

  function CommentNumbers(lines: seq<string>): seq<Option<nat>> {
    seq(|lines|, i requires 0 <= i < |lines| => CommentNumber(lines[i]))
  }

  /** Line `j` (0-based) carries a comment naming JSP line `q`. */
  predicate Names(nums: seq<Option<nat>>, j: nat, q: int) {
    j < |nums| && nums[j].Some? && nums[j].value == q
  }

  /** The first line from `i` on whose comment names `q`. */
  function FirstCommentFor(nums: seq<Option<nat>>, q: int, i: nat): (r: Option<nat>)
    requires i <= |nums|
    ensures r.Some? ==> i <= r.value && Names(nums, r.value, q)
    ensures r.Some? ==> forall j: nat :: i <= j < r.value ==> !Names(nums, j, q)
    ensures r.None? ==> forall j: nat :: i <= j ==> !Names(nums, j, q)
    decreases |nums| - i
  {
    if i == |nums| then None
    else if nums[i].Some? && nums[i].value == q then Some(i)
    else FirstCommentFor(nums, q, i + 1)
  }

  /**
   * `mapJspLineToServletLine`: the 1-based number of the first servlet line
   * whose comment names `jspLine`, otherwise `jspLine` itself; `None` when
   * the servlet file does not exist. From a 1-based JSP line the answer is
   * never 0, so the caller's falsy test only ever rejects a missing file.
   */
  function MappedServletLine(servletContent: Option<string>, jspLine: int): (r: Option<int>)
    ensures r.None? <==> servletContent.None?
    ensures jspLine >= 1 && r.Some? ==> r.value >= 1
  {
    match servletContent
    case None => None
    case Some(content) =>
      match FirstCommentFor(CommentNumbers(Split(content, '\n')), jspLine, 0)
      case Some(i) => Some(i + 1)
      case None => Some(jspLine)
  }

  method MapJspLineToServletLine(servletContent: Option<string>, jspLine: int) returns (r: Option<int>)
    ensures r == MappedServletLine(servletContent, jspLine)
  {
    if servletContent.None? {
      return None;
    }
    var lines := Split(servletContent.value, '\n');
    ghost var nums := CommentNumbers(lines);
    for i := 0 to |lines|
      invariant FirstCommentFor(nums, jspLine, i) == FirstCommentFor(nums, jspLine, 0)
    {
      var commentJspLine := CommentNumber(lines[i]);
      assert commentJspLine == nums[i];
      if commentJspLine.Some? && commentJspLine.value == jspLine {
        return Some(i + 1);
      }
    }
    return Some(jspLine);
  }

  /** The comment `// Line N, JSP file:` with one space at each gap is read as `N`. */
  lemma JspLineCommentLayout(s: string, a: nat, d: nat)
    requires a + 8 < d && d + 11 <= |s|
    requires s[a] == '/' && s[a + 1] == '/' && s[a + 2] == ' ' && MatchesAt(s, a + 3, "line") && s[a + 7] == ' '
    requires forall i :: a + 8 <= i < d ==> IsDigit(s[i])
    requires s[d] == ',' && s[d + 1] == ' ' && MatchesAt(s, d + 2, "jsp") && s[d + 5] == ' '
    requires MatchesAt(s, d + 6, "file:")
    ensures AllDigits(s[a + 8..d])
    ensures JspLineCommentAt(s, a) == Some(DigitsValue(s[a + 8..d]))
  {
    assert MatchesAt(s, a, "//");
    assert LowerChar(s[a + 3 + 0]) == "line"[0] && LowerChar(s[d + 2 + 0]) == "jsp"[0];
    assert LowerChar(s[d + 6 + 0]) == "file:"[0];
    SkipSpacesTo(s, a + 2, a + 3);
    SkipSpacesTo(s, a + 7, a + 8);
    SkipDigitsTo(s, a + 8, d);
    SkipSpacesTo(s, d + 1, d + 2);
    SkipSpacesTo(s, d + 5, d + 6);
    SkipDigitsAll(s, a + 8);
  }

  /** A line without `/` has no such comment. */
  lemma NoSlashNoComment(line: string)
    requires '/' !in line
    ensures CommentNumber(line) == None
  {
    forall i | 0 <= i <= |line| ensures JspLineCommentAt(line, i) == None {
      if i < |line| {
        assert line[i] != '/';
        assert LowerChar(line[i + 0]) != "//"[0];
      }
    }
    LeftmostNone(line, 0, JspLineCommentAt);
  }

  // ---------------------------------------------------------------------
  // Breakpoints and the two maps
  // ---------------------------------------------------------------------

  /** A `vscode.SourceBreakpoint` on a JSP file; `id` stands for the object identity `indexOf` compares. */
  datatype SourceBreakpoint = SourceBreakpoint(id: nat, path: string, line: nat)

  /** A breakpoint of a change event: a source breakpoint, or another kind, which is ignored. */
  datatype Breakpoint = Source(bp: SourceBreakpoint) | Other(id: nat)

  /** The breakpoint created in the servlet: its file and 0-based line. */
  datatype ServletBreakpoint = ServletBreakpoint(path: string, line: nat)

  /**
   * The manager's two maps, and the insertion order of the servlet map's
   * keys, which its `for...of` walks.
   */
  datatype BreakpointMaps = BreakpointMaps(jsp: map<string, seq<SourceBreakpoint>>,
                                           servlet: map<string, seq<ServletBreakpoint>>,
                                           servletFiles: seq<string>)

  /** The order lists each servlet key once. */
  ghost predicate OrderValid(m: BreakpointMaps) {
    && (forall i, j :: 0 <= i < j < |m.servletFiles| ==> m.servletFiles[i] != m.servletFiles[j])
    && (forall f :: f in m.servletFiles <==> f in m.servlet)
  }

  /** `map.get(k) || []`. */
  function Lookup<T>(m: map<string, seq<T>>, k: string): seq<T> {
    if k in m then m[k] else []
  }

  /** `if (!map.has(k)) map.set(k, []); map.get(k)!.push(x)`. */
  function Push<T>(m: map<string, seq<T>>, k: string, x: T): map<string, seq<T>> {
    m[k := Lookup(m, k) + [x]]
  }

  /** `list.splice(i, 1)`. */
  function Splice<T>(s: seq<T>, i: nat): (r: seq<T>)
    requires i < |s|
    ensures |r| == |s| - 1
    ensures forall j :: 0 <= j < i ==> r[j] == s[j]
    ensures forall j :: i <= j < |r| ==> r[j] == s[j + 1]
  {
    s[..i] + s[i + 1..]
  }

  /** `list.indexOf(x)`: the first position of `x`, or -1. */
  function IndexOfBreakpoint(s: seq<SourceBreakpoint>, x: SourceBreakpoint): (r: int)
    ensures -1 <= r < |s|
    ensures r == -1 <==> x !in s
    ensures r >= 0 ==> s[r] == x && forall j :: 0 <= j < r ==> s[j] != x
  {
    if s == [] then -1
    else if s[0] == x then 0
    else
      var r := IndexOfBreakpoint(s[1..], x);
      if r < 0 then -1 else r + 1
  }

  /**
   * `addJspBreakpoint`: nothing without a servlet file or a mapped line;
   * otherwise the JSP breakpoint joins its file's list and a servlet
   * breakpoint on the mapped line (0-based again) joins the servlet file's.
   */
  function Added(m: BreakpointMaps, bp: SourceBreakpoint, servletJavaFile: Option<string>,
                 servletContent: Option<string>): BreakpointMaps
  {
    if servletJavaFile.None? || servletJavaFile.value == "" then m
    else
      var servletLine := MappedServletLine(servletContent, bp.line + 1);
      if servletLine.None? || servletLine.value == 0 then m
      else
        var f := servletJavaFile.value;
        BreakpointMaps(Push(m.jsp, bp.path, bp),
                       Push(m.servlet, f, ServletBreakpoint(f, servletLine.value - 1)),
                       if f in m.servlet then m.servletFiles else m.servletFiles + [f])
  }

  /** The first servlet file, in map order, whose list has more than `index` entries. */
  function FirstLonger(files: seq<string>, servlet: map<string, seq<ServletBreakpoint>>, index: nat): (r: Option<string>)
    ensures r.Some? ==> r.value in files && |Lookup(servlet, r.value)| > index
    ensures r.None? ==> forall f :: f in files ==> |Lookup(servlet, f)| <= index
  {
    if files == [] then None
    else if |Lookup(servlet, files[0])| > index then Some(files[0])
    else FirstLonger(files[1..], servlet, index)
  }

  /**
   * `removeJspBreakpoint` as written: the JSP breakpoint leaves its list at
   * index `i`, and index `i` leaves the first servlet list long enough,
   * whichever file that is.
   */
  function RemovedAsWritten(m: BreakpointMaps, bp: SourceBreakpoint): BreakpointMaps {
    var list := Lookup(m.jsp, bp.path);
    var index := IndexOfBreakpoint(list, bp);
    if index < 0 then m
    else
      var jsp := m.jsp[bp.path := Splice(list, index)];
      match FirstLonger(m.servletFiles, m.servlet, index)
      case None => BreakpointMaps(jsp, m.servlet, m.servletFiles)
      case Some(f) => BreakpointMaps(jsp, m.servlet[f := Splice(Lookup(m.servlet, f), index)], m.servletFiles)
  }

  /**
   * `removeJspBreakpoint` corrected: index `i` leaves the list of the servlet
   * file the JSP maps to, the one `addJspBreakpoint` pushed onto.
   */
  function Removed(m: BreakpointMaps, bp: SourceBreakpoint, servletJavaFile: Option<string>): BreakpointMaps {
    var list := Lookup(m.jsp, bp.path);
    var index := IndexOfBreakpoint(list, bp);
    if index < 0 then m
    else
      var jsp := m.jsp[bp.path := Splice(list, index)];
      if servletJavaFile.Some? && |Lookup(m.servlet, servletJavaFile.value)| > index then
        var f := servletJavaFile.value;
        BreakpointMaps(jsp, m.servlet[f := Splice(m.servlet[f], index)], m.servletFiles)
      else BreakpointMaps(jsp, m.servlet, m.servletFiles)
  }

  /** The filter of `handleBreakpointChange`: a source breakpoint whose path ends in `.jsp`, case-sensitively. */
  predicate IsJspBreakpoint(b: Breakpoint) {
    b.Source? && EndsWith(b.bp.path, ".jsp")
  }

  /** The servlet file's content, when there is a servlet file. */
  function ContentOf(servletJavaFile: Option<string>, contentOf: string -> Option<string>): Option<string> {
    if servletJavaFile.Some? then contentOf(servletJavaFile.value) else None
  }

  /** The additions loop, one breakpoint after the other. */
  function AddedAll(m: BreakpointMaps, added: seq<Breakpoint>, servletFileOf: string -> Option<string>,
                    contentOf: string -> Option<string>): BreakpointMaps
  {
    if added == [] then m
    else
      var m' := AddedAll(m, added[..|added| - 1], servletFileOf, contentOf);
      var b := added[|added| - 1];
      if IsJspBreakpoint(b) then
        Added(m', b.bp, servletFileOf(b.bp.path), ContentOf(servletFileOf(b.bp.path), contentOf))
      else m'
  }

  /** The removals loop, with the corrected removal. */
  function RemovedAll(m: BreakpointMaps, removed: seq<Breakpoint>, servletFileOf: string -> Option<string>): BreakpointMaps {
    if removed == [] then m
    else
      var m' := RemovedAll(m, removed[..|removed| - 1], servletFileOf);
      var b := removed[|removed| - 1];
      if IsJspBreakpoint(b) then Removed(m', b.bp, servletFileOf(b.bp.path)) else m'
  }

  /** `handleBreakpointChange` corrected: all additions first, then all removals, each by `Removed`. */
  function Changed(m: BreakpointMaps, added: seq<Breakpoint>, removed: seq<Breakpoint>,
                   servletFileOf: string -> Option<string>, contentOf: string -> Option<string>): BreakpointMaps
  {
    RemovedAll(AddedAll(m, added, servletFileOf, contentOf), removed, servletFileOf)
  }

  /** The removals loop as written: each breakpoint leaves by `RemovedAsWritten`. */
  function RemovedAllAsWritten(m: BreakpointMaps, removed: seq<Breakpoint>): BreakpointMaps {
    if removed == [] then m
    else
      var m' := RemovedAllAsWritten(m, removed[..|removed| - 1]);
      var b := removed[|removed| - 1];
      if IsJspBreakpoint(b) then RemovedAsWritten(m', b.bp) else m'
  }

  /** `handleBreakpointChange` as written: all additions first, then all removals as written. */
  function ChangedAsWritten(m: BreakpointMaps, added: seq<Breakpoint>, removed: seq<Breakpoint>,
                            servletFileOf: string -> Option<string>, contentOf: string -> Option<string>): BreakpointMaps
  {
    RemovedAllAsWritten(AddedAll(m, added, servletFileOf, contentOf), removed)
  }

  // ---------------------------------------------------------------------
  // The manager
  // ---------------------------------------------------------------------

  class BreakpointManager {
    var jspBreakpoints: map<string, seq<SourceBreakpoint>>
    var servletBreakpoints: map<string, seq<ServletBreakpoint>>
    /** The insertion order of `servletBreakpoints`' keys. */
    var servletFiles: seq<string>

    function Maps(): BreakpointMaps
      reads this
    {
      BreakpointMaps(jspBreakpoints, servletBreakpoints, servletFiles)
    }

    constructor()
      ensures Maps() == BreakpointMaps(map[], map[], [])
    {
      jspBreakpoints, servletBreakpoints, servletFiles := map[], map[], [];
    }

    method AddJspBreakpoint(bp: SourceBreakpoint, servletJavaFile: Option<string>, servletContent: Option<string>)
      modifies this
      ensures Maps() == Added(old(Maps()), bp, servletJavaFile, servletContent)
    {
      var jspFile := bp.path;
      var jspLine := bp.line + 1;
      if servletJavaFile.None? || servletJavaFile.value == "" {
        return;
      }
      var servletLine := MapJspLineToServletLine(servletContent, jspLine);
      if servletLine.None? || servletLine.value == 0 {
        return;
      }
      var servletFile := servletJavaFile.value;
      var servletBreakpoint := ServletBreakpoint(servletFile, servletLine.value - 1);
      AddedShape(Maps(), bp, servletFile, servletContent, servletLine.value - 1);
      PushJspBreakpoint(jspFile, bp);
      PushServletBreakpoint(servletFile, servletBreakpoint);
    }

    /** `jspBreakpoints`: the file's list, created empty when missing, gains `bp`. */
    method PushJspBreakpoint(jspFile: string, bp: SourceBreakpoint)
      modifies this
      ensures jspBreakpoints == Push(old(jspBreakpoints), jspFile, bp)
      ensures servletBreakpoints == old(servletBreakpoints) && servletFiles == old(servletFiles)
    {
      if jspFile !in jspBreakpoints {
        jspBreakpoints := jspBreakpoints[jspFile := []];
      }
      jspBreakpoints := jspBreakpoints[jspFile := jspBreakpoints[jspFile] + [bp]];
    }

    /** `servletBreakpoints`: the file's list, created empty (and the file recorded) when missing, gains `sbp`. */
    method PushServletBreakpoint(servletFile: string, sbp: ServletBreakpoint)
      modifies this
      ensures servletBreakpoints == Push(old(servletBreakpoints), servletFile, sbp)
      ensures servletFiles == if servletFile in old(servletBreakpoints) then old(servletFiles) else old(servletFiles) + [servletFile]
      ensures jspBreakpoints == old(jspBreakpoints)
    {
      if servletFile !in servletBreakpoints {
        servletBreakpoints := servletBreakpoints[servletFile := []];
        servletFiles := servletFiles + [servletFile];
      }
      servletBreakpoints := servletBreakpoints[servletFile := servletBreakpoints[servletFile] + [sbp]];
    }

    /** The removal as the source writes it (see `RemovedAsWritten`). */
    method RemoveJspBreakpointAsWritten(bp: SourceBreakpoint)
      modifies this
      ensures Maps() == RemovedAsWritten(old(Maps()), bp)
    {
      var list := Lookup(jspBreakpoints, bp.path);
      var index := IndexOfBreakpoint(list, bp);
      if index < 0 {
        return;
      }
      jspBreakpoints := jspBreakpoints[bp.path := Splice(list, index)];
      for i := 0 to |servletFiles|
        invariant FirstLonger(servletFiles[i..], servletBreakpoints, index)
               == FirstLonger(old(servletFiles), old(servletBreakpoints), index)
        invariant servletBreakpoints == old(servletBreakpoints) && servletFiles == old(servletFiles)
      {
        assert servletFiles[i..][1..] == servletFiles[i + 1..];
        var servletFile := servletFiles[i];
        var servletList := Lookup(servletBreakpoints, servletFile);
        if |servletList| > index {
          servletBreakpoints := servletBreakpoints[servletFile := Splice(servletList, index)];
          return;
        }
      }
    }

    /** The corrected removal (see `Removed`). */
    method RemoveJspBreakpoint(bp: SourceBreakpoint, servletJavaFile: Option<string>)
      modifies this
      ensures Maps() == Removed(old(Maps()), bp, servletJavaFile)
    {
      var list := Lookup(jspBreakpoints, bp.path);
      var index := IndexOfBreakpoint(list, bp);
      if index < 0 {
        return;
      }
      jspBreakpoints := jspBreakpoints[bp.path := Splice(list, index)];
      if servletJavaFile.Some? && |Lookup(servletBreakpoints, servletJavaFile.value)| > index {
        var servletFile := servletJavaFile.value;
        servletBreakpoints := servletBreakpoints[servletFile := Splice(servletBreakpoints[servletFile], index)];
      }
    }

    method HandleBreakpointChange(added: seq<Breakpoint>, removed: seq<Breakpoint>,
                                  servletFileOf: string -> Option<string>, contentOf: string -> Option<string>)
      modifies this
      ensures Maps() == ChangedAsWritten(old(Maps()), added, removed, servletFileOf, contentOf)
    {
      for i := 0 to |added|
        invariant Maps() == AddedAll(old(Maps()), added[..i], servletFileOf, contentOf)
      {
        assert added[..i + 1][..i] == added[..i];
        var b := added[i];
        if b.Source? && EndsWith(b.bp.path, ".jsp") {
          var servletJavaFile := servletFileOf(b.bp.path);
          AddJspBreakpoint(b.bp, servletJavaFile, ContentOf(servletJavaFile, contentOf));
        }
      }
      assert added[..|added|] == added;
      ghost var afterAdds := Maps();
      for i := 0 to |removed|
        invariant Maps() == RemovedAllAsWritten(afterAdds, removed[..i])
      {
        assert removed[..i + 1][..i] == removed[..i];
        var b := removed[i];
        if b.Source? && EndsWith(b.bp.path, ".jsp") {
          RemoveJspBreakpointAsWritten(b.bp);
        }
      }
      assert removed[..|removed|] == removed;
    }

    method GetJspBreakpoints(jspFile: string) returns (r: seq<SourceBreakpoint>)
      ensures r == Lookup(Maps().jsp, jspFile)
    {
      r := Lookup(jspBreakpoints, jspFile);
    }

    method GetServletBreakpoints(servletFile: string) returns (r: seq<ServletBreakpoint>)
      ensures r == Lookup(Maps().servlet, servletFile)
    {
      r := Lookup(servletBreakpoints, servletFile);
    }
  }

  // ---------------------------------------------------------------------
  // What adding does
  // ---------------------------------------------------------------------

  /** Nothing is added exactly when there is no servlet file, or it does not exist. */
  lemma AddedNothing(m: BreakpointMaps, bp: SourceBreakpoint, servletJavaFile: Option<string>, servletContent: Option<string>)
    ensures Added(m, bp, servletJavaFile, servletContent) == m
        <==> servletJavaFile.None? || servletJavaFile.value == "" || servletContent.None?
  {
    var m' := Added(m, bp, servletJavaFile, servletContent);
    if servletJavaFile.Some? && servletJavaFile.value != "" && servletContent.Some? {
      assert |Lookup(m'.jsp, bp.path)| == |Lookup(m.jsp, bp.path)| + 1;
    }
  }

  /**
   * Line `i` (0-based) of the servlet is the first whose comment names the
   * breakpoint's 1-based line: the servlet breakpoint goes on line `i`, and
   * the two lists grow by one breakpoint each, all other lists unchanged.
   */
  lemma AddedAtComment(m: BreakpointMaps, bp: SourceBreakpoint, servletFile: string, content: string,
                        jspLine: nat, i: nat)
    requires servletFile != "" && jspLine == bp.line + 1
    requires var nums := CommentNumbers(Split(content, '\n'));
      Names(nums, i, jspLine) && forall j: nat :: j < i ==> !Names(nums, j, jspLine)
    ensures var m' := Added(m, bp, Some(servletFile), Some(content));
      && Lookup(m'.jsp, bp.path) == Lookup(m.jsp, bp.path) + [bp]
      && Lookup(m'.servlet, servletFile) == Lookup(m.servlet, servletFile) + [ServletBreakpoint(servletFile, i)]
      && (forall k :: k != bp.path ==> Lookup(m'.jsp, k) == Lookup(m.jsp, k))
      && (forall k :: k != servletFile ==> Lookup(m'.servlet, k) == Lookup(m.servlet, k))
  {
    var r := FirstCommentFor(CommentNumbers(Split(content, '\n')), jspLine, 0);
    assert r == Some(i);
    AddedShape(m, bp, servletFile, Some(content), i);
  }

  /**
   * No comment names the breakpoint's line: the servlet breakpoint goes on
   * the breakpoint's own 0-based line.
   */
  lemma AddedWithoutComment(m: BreakpointMaps, bp: SourceBreakpoint, servletFile: string, content: string, jspLine: nat)
    requires servletFile != "" && jspLine == bp.line + 1
    requires forall j: nat :: !Names(CommentNumbers(Split(content, '\n')), j, jspLine)
    ensures var m' := Added(m, bp, Some(servletFile), Some(content));
      && Lookup(m'.jsp, bp.path) == Lookup(m.jsp, bp.path) + [bp]
      && Lookup(m'.servlet, servletFile) == Lookup(m.servlet, servletFile) + [ServletBreakpoint(servletFile, bp.line)]
  {
    var r := FirstCommentFor(CommentNumbers(Split(content, '\n')), jspLine, 0);
    assert r == None;
    AddedShape(m, bp, servletFile, Some(content), bp.line);
  }

  /** A successful add, with the mapped line given as `line + 1`. */
  lemma AddedShape(m: BreakpointMaps, bp: SourceBreakpoint, servletFile: string, servletContent: Option<string>, line: nat)
    requires servletFile != "" && MappedServletLine(servletContent, bp.line + 1) == Some(line + 1)
    ensures Added(m, bp, Some(servletFile), servletContent)
         == BreakpointMaps(Push(m.jsp, bp.path, bp), Push(m.servlet, servletFile, ServletBreakpoint(servletFile, line)),
                           if servletFile in m.servlet then m.servletFiles else m.servletFiles + [servletFile])
  {
  }

  /** Adding keeps each servlet file once in the map order. */
  lemma AddedKeepsOrder(m: BreakpointMaps, bp: SourceBreakpoint, servletJavaFile: Option<string>, servletContent: Option<string>)
    requires OrderValid(m)
    ensures OrderValid(Added(m, bp, servletJavaFile, servletContent))
  {
    var m' := Added(m, bp, servletJavaFile, servletContent);
    if m'.servletFiles != m.servletFiles {
      var f := servletJavaFile.value;
      assert f !in m.servletFiles;
      forall i, j | 0 <= i < j < |m'.servletFiles| ensures m'.servletFiles[i] != m'.servletFiles[j] {
        if j == |m.servletFiles| {
          assert m'.servletFiles[i] in m.servletFiles;
        }
      }
    }
  }

  // ---------------------------------------------------------------------
  // The two lists stay parallel
  // ---------------------------------------------------------------------

  /** Each JSP file's servlet file, by the resolver, is a different file. */
  ghost predicate Injective(servletFileOf: string -> Option<string>) {
    forall f, g :: servletFileOf(f).Some? && servletFileOf(f) == servletFileOf(g) ==> f == g
  }

  /** JSP file `f`'s list is as long as its servlet file's list. */
  ghost predicate PairedFile(m: BreakpointMaps, servletFileOf: string -> Option<string>, f: string) {
    && f in m.jsp && servletFileOf(f).Some? && servletFileOf(f).value in m.servlet
    && |m.servlet[servletFileOf(f).value]| == |m.jsp[f]|
  }

  /**
   * The parallel lists: every JSP file's list is as long as the list of its
   * servlet file, and every servlet list belongs to some JSP file.
   */
  ghost predicate Paired(m: BreakpointMaps, servletFileOf: string -> Option<string>) {
    && (forall f :: f in m.jsp ==> PairedFile(m, servletFileOf, f))
    && (forall s :: s in m.servlet ==> exists f :: f in m.jsp && servletFileOf(f) == Some(s))
  }

  /** A JSP file without a list has a servlet file without a list. */
  lemma NewServletFile(m: BreakpointMaps, servletFileOf: string -> Option<string>, p: string)
    requires Paired(m, servletFileOf) && Injective(servletFileOf)
    requires p !in m.jsp && servletFileOf(p).Some?
    ensures servletFileOf(p).value !in m.servlet
  {
    forall g | g in m.jsp ensures servletFileOf(g) != servletFileOf(p) {
      assert g != p;
    }
  }

  lemma AddedKeepsPaired(m: BreakpointMaps, bp: SourceBreakpoint, servletFileOf: string -> Option<string>,
                         servletContent: Option<string>)
    requires Paired(m, servletFileOf) && Injective(servletFileOf)
    ensures Paired(Added(m, bp, servletFileOf(bp.path), servletContent), servletFileOf)
  {
    var sf := servletFileOf(bp.path);
    var m' := Added(m, bp, sf, servletContent);
    if sf.Some? && sf.value != "" && servletContent.Some? {
      var p, f := bp.path, sf.value;
      if p !in m.jsp {
        NewServletFile(m, servletFileOf, p);
      }
      assert |m'.jsp[p]| == |m'.servlet[f]|;
      forall g | g in m'.jsp ensures PairedFile(m', servletFileOf, g) {
        if g != p {
          assert servletFileOf(g) != sf;
        }
      }
      forall s | s in m'.servlet ensures exists g :: g in m'.jsp && servletFileOf(g) == Some(s) {
        if s == f {
          assert p in m'.jsp;
        } else {
          var g :| g in m.jsp && servletFileOf(g) == Some(s);
          assert g in m'.jsp;
        }
      }
    }
  }

  lemma RemovedKeepsPaired(m: BreakpointMaps, bp: SourceBreakpoint, servletFileOf: string -> Option<string>)
    requires Paired(m, servletFileOf) && Injective(servletFileOf)
    ensures Paired(Removed(m, bp, servletFileOf(bp.path)), servletFileOf)
  {
    var p := bp.path;
    var index := IndexOfBreakpoint(Lookup(m.jsp, p), bp);
    var m' := Removed(m, bp, servletFileOf(p));
    if index >= 0 {
      assert PairedFile(m, servletFileOf, p);
      var f := servletFileOf(p).value;
      assert |m'.jsp[p]| == |m'.servlet[f]|;
      forall g | g in m'.jsp ensures PairedFile(m', servletFileOf, g) {
        if g != p {
          assert servletFileOf(g) != servletFileOf(p);
        }
      }
      forall s | s in m'.servlet ensures exists g :: g in m'.jsp && servletFileOf(g) == Some(s) {
        var g :| g in m.jsp && servletFileOf(g) == Some(s);
        assert g in m'.jsp;
      }
    }
  }

  lemma {:induction false} AddedAllKeepsPaired(m: BreakpointMaps, added: seq<Breakpoint>,
                                               servletFileOf: string -> Option<string>, contentOf: string -> Option<string>)
    requires Paired(m, servletFileOf) && Injective(servletFileOf)
    ensures Paired(AddedAll(m, added, servletFileOf, contentOf), servletFileOf)
  {
    if added != [] {
      var m' := AddedAll(m, added[..|added| - 1], servletFileOf, contentOf);
      AddedAllKeepsPaired(m, added[..|added| - 1], servletFileOf, contentOf);
      var b := added[|added| - 1];
      if IsJspBreakpoint(b) {
        AddedKeepsPaired(m', b.bp, servletFileOf, ContentOf(servletFileOf(b.bp.path), contentOf));
      }
    }
  }

  lemma {:induction false} RemovedAllKeepsPaired(m: BreakpointMaps, removed: seq<Breakpoint>,
                                                 servletFileOf: string -> Option<string>)
    requires Paired(m, servletFileOf) && Injective(servletFileOf)
    ensures Paired(RemovedAll(m, removed, servletFileOf), servletFileOf)
  {
    if removed != [] {
      var m' := RemovedAll(m, removed[..|removed| - 1], servletFileOf);
      RemovedAllKeepsPaired(m, removed[..|removed| - 1], servletFileOf);
      var b := removed[|removed| - 1];
      if IsJspBreakpoint(b) {
        RemovedKeepsPaired(m', b.bp, servletFileOf);
      }
    }
  }

  /** A change event keeps the lists parallel, when each JSP file has its own servlet file. */
  lemma ChangedKeepsPaired(m: BreakpointMaps, added: seq<Breakpoint>, removed: seq<Breakpoint>,
                           servletFileOf: string -> Option<string>, contentOf: string -> Option<string>)
    requires Paired(m, servletFileOf) && Injective(servletFileOf)
    ensures Paired(Changed(m, added, removed, servletFileOf, contentOf), servletFileOf)
  {
    AddedAllKeepsPaired(m, added, servletFileOf, contentOf);
    RemovedAllKeepsPaired(AddedAll(m, added, servletFileOf, contentOf), removed, servletFileOf);
  }

  /** Removing a breakpoint just added gives every list back as it was. */
  lemma AddedThenRemoved(m: BreakpointMaps, bp: SourceBreakpoint, servletFileOf: string -> Option<string>,
                         servletContent: Option<string>)
    requires Paired(m, servletFileOf) && Injective(servletFileOf)
    requires bp !in Lookup(m.jsp, bp.path)
    ensures var m' := Removed(Added(m, bp, servletFileOf(bp.path), servletContent), bp, servletFileOf(bp.path));
      forall k :: Lookup(m'.jsp, k) == Lookup(m.jsp, k) && Lookup(m'.servlet, k) == Lookup(m.servlet, k)
  {
    var sf := servletFileOf(bp.path);
    if sf.Some? && sf.value != "" && servletContent.Some? {
      var f := sf.value;
      var line := MappedServletLine(servletContent, bp.line + 1).value - 1;
      var files := if f in m.servlet then m.servletFiles else m.servletFiles + [f];
      PairedLengths(m, servletFileOf, bp.path);
      AddedShape(m, bp, f, servletContent, line);
      RemovedUndoesPush(m, bp, f, ServletBreakpoint(f, line), files);
      LookupRestored(m.jsp, bp.path);
      LookupRestored(m.servlet, f);
    } else {
      assert Added(m, bp, sf, servletContent) == m;
    }
  }

  /** Removing a breakpoint pushed onto its list, after its servlet breakpoint was pushed onto an equally long one. */
  lemma RemovedUndoesPush(m: BreakpointMaps, bp: SourceBreakpoint, servletFile: string, last: ServletBreakpoint,
                          servletFiles: seq<string>)
    requires bp !in Lookup(m.jsp, bp.path)
    requires |Lookup(m.servlet, servletFile)| == |Lookup(m.jsp, bp.path)|
    ensures var pushed := BreakpointMaps(Push(m.jsp, bp.path, bp), Push(m.servlet, servletFile, last), servletFiles);
      var m' := Removed(pushed, bp, Some(servletFile));
      && m'.jsp == m.jsp[bp.path := Lookup(m.jsp, bp.path)]
      && m'.servlet == m.servlet[servletFile := Lookup(m.servlet, servletFile)]
  {
    var pushed := BreakpointMaps(Push(m.jsp, bp.path, bp), Push(m.servlet, servletFile, last), servletFiles);
    var list, servletList := Lookup(m.jsp, bp.path), Lookup(m.servlet, servletFile);
    IndexOfAppended(list, bp);
    RemovedShape(pushed, bp, servletFile, list, servletList, last);
    PushThenSet(m.jsp, bp.path, bp, list);
    PushThenSet(m.servlet, servletFile, last, servletList);
  }

  /** Setting a key after pushing onto it forgets the push. */
  lemma PushThenSet<T>(m: map<string, seq<T>>, k: string, x: T, v: seq<T>)
    ensures Push(m, k, x)[k := v] == m[k := v]
  {
  }

  /** Removing the breakpoint last in its list takes the last servlet breakpoint off too. */
  lemma RemovedShape(m: BreakpointMaps, bp: SourceBreakpoint, servletFile: string,
                     list: seq<SourceBreakpoint>, servletList: seq<ServletBreakpoint>, last: ServletBreakpoint)
    requires Lookup(m.jsp, bp.path) == list + [bp] && IndexOfBreakpoint(list + [bp], bp) == |list|
    requires Lookup(m.servlet, servletFile) == servletList + [last] && |servletList| == |list|
    ensures Removed(m, bp, Some(servletFile)).jsp == m.jsp[bp.path := list]
    ensures Removed(m, bp, Some(servletFile)).servlet == m.servlet[servletFile := servletList]
  {
    SpliceLast(list, bp);
    SpliceLast(servletList, last);
  }

  /** Setting a key to what `Lookup` gave for it changes no `Lookup`. */
  lemma LookupRestored<T>(m: map<string, seq<T>>, p: string)
    ensures forall k :: Lookup(m[p := Lookup(m, p)], k) == Lookup(m, k)
  {
  }

  /** A JSP file's list and its servlet file's list are equally long, absent lists counting as empty. */
  lemma PairedLengths(m: BreakpointMaps, servletFileOf: string -> Option<string>, p: string)
    requires Paired(m, servletFileOf) && Injective(servletFileOf)
    requires servletFileOf(p).Some?
    ensures |Lookup(m.servlet, servletFileOf(p).value)| == |Lookup(m.jsp, p)|
  {
    if p in m.jsp {
      assert PairedFile(m, servletFileOf, p);
    } else {
      NewServletFile(m, servletFileOf, p);
    }
  }

  /** `indexOf` finds an appended breakpoint at the end when it was not in the list. */
  lemma IndexOfAppended(list: seq<SourceBreakpoint>, bp: SourceBreakpoint)
    requires bp !in list
    ensures IndexOfBreakpoint(list + [bp], bp) == |list|
  {
    assert (list + [bp])[|list|] == bp;
    forall j | 0 <= j < |list| ensures (list + [bp])[j] != bp {
      assert (list + [bp])[j] == list[j];
    }
  }

  lemma SpliceLast<T>(list: seq<T>, x: T)
    ensures Splice(list + [x], |list|) == list
  {
    assert (list + [x])[..|list|] == list;
  }

  // ---------------------------------------------------------------------
  // The removal as written
  // ---------------------------------------------------------------------

  /**
   * The removal as written agrees with the corrected one exactly when the
   * JSP file's own servlet file is the first, in map order, whose list is
   * long enough.
   */
  lemma AsWrittenAgreesIff(m: BreakpointMaps, bp: SourceBreakpoint, servletFileOf: string -> Option<string>)
    requires Paired(m, servletFileOf) && Injective(servletFileOf) && OrderValid(m)
    requires bp in Lookup(m.jsp, bp.path)
    ensures var index := IndexOfBreakpoint(Lookup(m.jsp, bp.path), bp);
      RemovedAsWritten(m, bp) == Removed(m, bp, servletFileOf(bp.path))
      <==> FirstLonger(m.servletFiles, m.servlet, index) == servletFileOf(bp.path)
  {
    var p := bp.path;
    var index := IndexOfBreakpoint(Lookup(m.jsp, p), bp);
    assert PairedFile(m, servletFileOf, p);
    var f := servletFileOf(p).value;
    var first := FirstLonger(m.servletFiles, m.servlet, index);
    assert f in m.servletFiles;
    if first != Some(f) {
      var g := first.value;
      assert |RemovedAsWritten(m, bp).servlet[g]| == |m.servlet[g]| - 1;
      assert Removed(m, bp, Some(f)).servlet[g] == m.servlet[g];
    }
  }

  /**
   * When an earlier servlet file's list is long enough, the removal as
   * written shortens that list instead and the lists are no longer parallel.
   */
  lemma AsWrittenBreaksPairing(m: BreakpointMaps, bp: SourceBreakpoint, servletFileOf: string -> Option<string>)
    requires Paired(m, servletFileOf) && Injective(servletFileOf) && OrderValid(m)
    requires bp in Lookup(m.jsp, bp.path)
    requires FirstLonger(m.servletFiles, m.servlet, IndexOfBreakpoint(Lookup(m.jsp, bp.path), bp)) != servletFileOf(bp.path)
    ensures !Paired(RemovedAsWritten(m, bp), servletFileOf)
  {
    var p := bp.path;
    var index := IndexOfBreakpoint(Lookup(m.jsp, p), bp);
    assert PairedFile(m, servletFileOf, p);
    var f := servletFileOf(p).value;
    assert f in m.servletFiles;
    var g := FirstLonger(m.servletFiles, m.servlet, index).value;
    var h :| h in m.jsp && servletFileOf(h) == Some(g);
    assert PairedFile(m, servletFileOf, h);
    var m' := RemovedAsWritten(m, bp);
    assert h != p;
    assert |m'.servlet[g]| == |m.servlet[g]| - 1;
    assert m'.jsp[h] == m.jsp[h];
    assert !PairedFile(m', servletFileOf, h);
  }

  /** The servlet files of the two-file example. */
  function ExampleServletFile(jspFile: string): Option<string> {
    if jspFile == "a.jsp" then Some("A.java") else if jspFile == "b.jsp" then Some("B.java") else None
  }

  /** `a.jsp` and `b.jsp`, one breakpoint each on their first line, compiled to `A.java` and `B.java`. */
  function ExampleMaps(): BreakpointMaps {
    BreakpointMaps(map["a.jsp" := [SourceBreakpoint(1, "a.jsp", 0)], "b.jsp" := [SourceBreakpoint(2, "b.jsp", 0)]],
                   map["A.java" := [ServletBreakpoint("A.java", 0)], "B.java" := [ServletBreakpoint("B.java", 0)]],
                   ["A.java", "B.java"])
  }

  /** The example is a state `addJspBreakpoint` can reach: parallel lists, distinct files. */
  lemma ExampleWellFormed()
    ensures Paired(ExampleMaps(), ExampleServletFile) && Injective(ExampleServletFile) && OrderValid(ExampleMaps())
  {
    var m := ExampleMaps();
    DistinctNames();
    forall f | f in m.jsp ensures PairedFile(m, ExampleServletFile, f) {
      assert f == "a.jsp" || f == "b.jsp";
    }
    forall s | s in m.servlet ensures exists f :: f in m.jsp && ExampleServletFile(f) == Some(s) {
      if s == "A.java" {
        assert "a.jsp" in m.jsp;
      } else {
        assert "b.jsp" in m.jsp;
      }
    }
  }

  lemma DistinctNames()
    ensures "a.jsp" != "b.jsp" && "A.java" != "B.java"
  {
    assert "a.jsp"[0] != "b.jsp"[0];
    assert "A.java"[0] != "B.java"[0];
  }

  /**
   * In the example, removing `b.jsp`'s breakpoint as written removes
   * `A.java`'s servlet breakpoint and leaves `B.java`'s in place, so the
   * lists are no longer parallel; the corrected removal takes `B.java`'s.
   */
  lemma AsWrittenExample()
    ensures var m, b1 := ExampleMaps(), SourceBreakpoint(2, "b.jsp", 0);
      && Paired(m, ExampleServletFile) && Injective(ExampleServletFile) && OrderValid(m)
      && RemovedAsWritten(m, b1).servlet == map["A.java" := [], "B.java" := [ServletBreakpoint("B.java", 0)]]
      && !Paired(RemovedAsWritten(m, b1), ExampleServletFile)
      && Removed(m, b1, ExampleServletFile(b1.path)).servlet
         == map["A.java" := [ServletBreakpoint("A.java", 0)], "B.java" := []]
  {
    var m, b1 := ExampleMaps(), SourceBreakpoint(2, "b.jsp", 0);
    ExampleWellFormed();
    ExampleFirstRemovals();
    assert ExampleServletFile(b1.path) == Some("B.java");
    assert IndexOfBreakpoint(Lookup(m.jsp, b1.path), b1) == 0;
    AsWrittenBreaksPairing(m, b1, ExampleServletFile);
  }

  // ---------------------------------------------------------------------
  // handleBreakpointChange as written
  // ---------------------------------------------------------------------

  /**
   * Removing `b` from `m`, the first servlet list long enough for the JSP
   * breakpoint's index is its own servlet file's (trivially so when `b` is
   * filtered out or not in its list).
   */
  ghost predicate OwnListFirst(m: BreakpointMaps, b: Breakpoint, servletFileOf: string -> Option<string>) {
    IsJspBreakpoint(b) && b.bp in Lookup(m.jsp, b.bp.path) ==>
      FirstLonger(m.servletFiles, m.servlet, IndexOfBreakpoint(Lookup(m.jsp, b.bp.path), b.bp)) == servletFileOf(b.bp.path)
  }

  /** At every step of the removals loop as written, the first long-enough list is the own one. */
  ghost predicate RemovalsAgree(m: BreakpointMaps, removed: seq<Breakpoint>, servletFileOf: string -> Option<string>) {
    forall i :: 0 <= i < |removed| ==> OwnListFirst(RemovedAllAsWritten(m, removed[..i]), removed[i], servletFileOf)
  }

  lemma {:induction false} AddedAllKeepsOrder(m: BreakpointMaps, added: seq<Breakpoint>,
                                              servletFileOf: string -> Option<string>, contentOf: string -> Option<string>)
    requires OrderValid(m)
    ensures OrderValid(AddedAll(m, added, servletFileOf, contentOf))
  {
    if added != [] {
      var m' := AddedAll(m, added[..|added| - 1], servletFileOf, contentOf);
      AddedAllKeepsOrder(m, added[..|added| - 1], servletFileOf, contentOf);
      var b := added[|added| - 1];
      if IsJspBreakpoint(b) {
        AddedKeepsOrder(m', b.bp, servletFileOf(b.bp.path), ContentOf(servletFileOf(b.bp.path), contentOf));
      }
    }
  }

  /** The corrected removal changes no servlet key and not the order. */
  lemma RemovedKeepsOrder(m: BreakpointMaps, bp: SourceBreakpoint, servletJavaFile: Option<string>)
    requires OrderValid(m)
    ensures OrderValid(Removed(m, bp, servletJavaFile))
  {
    var m' := Removed(m, bp, servletJavaFile);
    assert m'.servletFiles == m.servletFiles;
    assert m'.servlet.Keys == m.servlet.Keys;
  }

  /**
   * While at every removal the first long-enough servlet list is the JSP
   * file's own, the removals loop as written does what the corrected one
   * does, and the lists stay parallel.
   */
  lemma {:induction false} RemovedAllAgrees(m: BreakpointMaps, removed: seq<Breakpoint>, servletFileOf: string -> Option<string>)
    requires Paired(m, servletFileOf) && Injective(servletFileOf) && OrderValid(m)
    requires RemovalsAgree(m, removed, servletFileOf)
    ensures RemovedAllAsWritten(m, removed) == RemovedAll(m, removed, servletFileOf)
    ensures Paired(RemovedAllAsWritten(m, removed), servletFileOf) && OrderValid(RemovedAllAsWritten(m, removed))
  {
    if removed != [] {
      var n := |removed| - 1;
      var prefix := removed[..n];
      forall i | 0 <= i < |prefix| ensures OwnListFirst(RemovedAllAsWritten(m, prefix[..i]), prefix[i], servletFileOf) {
        assert prefix[..i] == removed[..i];
        assert prefix[i] == removed[i];
      }
      RemovedAllAgrees(m, prefix, servletFileOf);
      var m' := RemovedAllAsWritten(m, prefix);
      var b := removed[n];
      assert OwnListFirst(m', b, servletFileOf) by {
        assert removed[..n] == prefix;
      }
      if IsJspBreakpoint(b) {
        if b.bp in Lookup(m'.jsp, b.bp.path) {
          AsWrittenAgreesIff(m', b.bp, servletFileOf);
        }
        RemovedKeepsPaired(m', b.bp, servletFileOf);
        RemovedKeepsOrder(m', b.bp, servletFileOf(b.bp.path));
      }
    }
  }

  /**
   * `handleBreakpointChange` as written agrees with the corrected handler,
   * and keeps the lists parallel, whenever at every removal the first
   * long-enough servlet list is the JSP file's own.
   */
  lemma ChangedAsWrittenAgrees(m: BreakpointMaps, added: seq<Breakpoint>, removed: seq<Breakpoint>,
                               servletFileOf: string -> Option<string>, contentOf: string -> Option<string>)
    requires Paired(m, servletFileOf) && Injective(servletFileOf) && OrderValid(m)
    requires RemovalsAgree(AddedAll(m, added, servletFileOf, contentOf), removed, servletFileOf)
    ensures ChangedAsWritten(m, added, removed, servletFileOf, contentOf) == Changed(m, added, removed, servletFileOf, contentOf)
    ensures Paired(ChangedAsWritten(m, added, removed, servletFileOf, contentOf), servletFileOf)
  {
    AddedAllKeepsPaired(m, added, servletFileOf, contentOf);
    AddedAllKeepsOrder(m, added, servletFileOf, contentOf);
    RemovedAllAgrees(AddedAll(m, added, servletFileOf, contentOf), removed, servletFileOf);
  }

  /** The loops on a single breakpoint. */
  lemma RemovedAllOne(m: BreakpointMaps, b: Breakpoint, servletFileOf: string -> Option<string>)
    ensures RemovedAllAsWritten(m, [b]) == if IsJspBreakpoint(b) then RemovedAsWritten(m, b.bp) else m
    ensures RemovedAll(m, [b], servletFileOf) == if IsJspBreakpoint(b) then Removed(m, b.bp, servletFileOf(b.bp.path)) else m
  {
    assert [b][..0] == [];
  }

  /** The loops on two breakpoints: the second removal runs on the state the first left. */
  lemma RemovedAllTwo(m: BreakpointMaps, b: Breakpoint, c: Breakpoint, servletFileOf: string -> Option<string>)
    ensures RemovedAllAsWritten(m, [b, c])
         == var m' := RemovedAllAsWritten(m, [b]); if IsJspBreakpoint(c) then RemovedAsWritten(m', c.bp) else m'
    ensures RemovedAll(m, [b, c], servletFileOf)
         == var m' := RemovedAll(m, [b], servletFileOf); if IsJspBreakpoint(c) then Removed(m', c.bp, servletFileOf(c.bp.path)) else m'
  {
    assert [b, c][..1] == [b];
  }

  /** Both example breakpoints pass the `.jsp` filter. */
  lemma ExampleFiltered()
    ensures IsJspBreakpoint(Source(SourceBreakpoint(1, "a.jsp", 0)))
    ensures IsJspBreakpoint(Source(SourceBreakpoint(2, "b.jsp", 0)))
  {
    assert "a.jsp"[|"a.jsp"| - 4..] == ".jsp";
    assert "b.jsp"[|"b.jsp"| - 4..] == ".jsp";
  }

  /** The example after removing `b.jsp`'s breakpoint as written: `A.java`'s list is empty. */
  function ExampleAfterAsWritten(): BreakpointMaps {
    BreakpointMaps(map["a.jsp" := [SourceBreakpoint(1, "a.jsp", 0)], "b.jsp" := []],
                   map["A.java" := [], "B.java" := [ServletBreakpoint("B.java", 0)]],
                   ["A.java", "B.java"])
  }

  /** The example after the corrected removal of `b.jsp`'s breakpoint: `B.java`'s list is empty. */
  function ExampleAfterRemoved(): BreakpointMaps {
    BreakpointMaps(map["a.jsp" := [SourceBreakpoint(1, "a.jsp", 0)], "b.jsp" := []],
                   map["A.java" := [ServletBreakpoint("A.java", 0)], "B.java" := []],
                   ["A.java", "B.java"])
  }

  /** Everything removed. */
  function ExampleEmptied(): BreakpointMaps {
    BreakpointMaps(map["a.jsp" := [], "b.jsp" := []], map["A.java" := [], "B.java" := []], ["A.java", "B.java"])
  }

  lemma ExampleFirstRemovals()
    ensures RemovedAsWritten(ExampleMaps(), SourceBreakpoint(2, "b.jsp", 0)) == ExampleAfterAsWritten()
    ensures Removed(ExampleMaps(), SourceBreakpoint(2, "b.jsp", 0), Some("B.java")) == ExampleAfterRemoved()
  {
    var m, b1 := ExampleMaps(), SourceBreakpoint(2, "b.jsp", 0);
    DistinctNames();
    assert Lookup(m.jsp, "b.jsp") == [b1];
    assert IndexOfBreakpoint([b1], b1) == 0;
    assert FirstLonger(m.servletFiles, m.servlet, 0) == Some("A.java");
  }

  /** Removing `a.jsp`'s breakpoint next: as written it takes `B.java`'s, corrected `A.java`'s; both empty everything. */
  lemma ExampleSecondRemovals()
    ensures RemovedAsWritten(ExampleAfterAsWritten(), SourceBreakpoint(1, "a.jsp", 0)) == ExampleEmptied()
    ensures Removed(ExampleAfterRemoved(), SourceBreakpoint(1, "a.jsp", 0), Some("A.java")) == ExampleEmptied()
  {
    var w, c, a1 := ExampleAfterAsWritten(), ExampleAfterRemoved(), SourceBreakpoint(1, "a.jsp", 0);
    DistinctNames();
    assert Lookup(w.jsp, "a.jsp") == [a1] && Lookup(c.jsp, "a.jsp") == [a1];
    assert IndexOfBreakpoint([a1], a1) == 0;
    assert FirstLonger(w.servletFiles, w.servlet, 0) == Some("B.java") by {
      assert |Lookup(w.servlet, "A.java")| == 0;
    }
  }

  /**
   * The converse of `ChangedAsWrittenAgrees` fails: in the two-file example,
   * removing `b.jsp`'s breakpoint and then `a.jsp`'s takes the wrong servlet
   * list each time, yet both runs end in the same state.
   */
  lemma DivergedRunsReconverge(contentOf: string -> Option<string>)
    ensures var m, removed := ExampleMaps(), [Source(SourceBreakpoint(2, "b.jsp", 0)), Source(SourceBreakpoint(1, "a.jsp", 0))];
      && !OwnListFirst(m, removed[0], ExampleServletFile)
      && ChangedAsWritten(m, [], removed, ExampleServletFile, contentOf) == Changed(m, [], removed, ExampleServletFile, contentOf)
  {
    var m := ExampleMaps();
    var a1, b1 := Source(SourceBreakpoint(1, "a.jsp", 0)), Source(SourceBreakpoint(2, "b.jsp", 0));
    ExampleFiltered();
    ExampleFirstRemovals();
    ExampleSecondRemovals();
    RemovedAllOne(m, b1, ExampleServletFile);
    RemovedAllTwo(m, b1, a1, ExampleServletFile);
    assert ExampleServletFile("b.jsp") == Some("B.java") && ExampleServletFile("a.jsp") == Some("A.java");
    assert !OwnListFirst(m, b1, ExampleServletFile) by {
      DistinctNames();
      assert Lookup(m.jsp, "b.jsp") == [b1.bp];
      assert IndexOfBreakpoint([b1.bp], b1.bp) == 0;
      assert FirstLonger(m.servletFiles, m.servlet, 0) == Some("A.java");
    }
  }

  /** In the two-file example, the handler as written leaves the lists no longer parallel. */
  lemma ChangedAsWrittenBreaksPairing(contentOf: string -> Option<string>)
    ensures var m, removed := ExampleMaps(), [Source(SourceBreakpoint(2, "b.jsp", 0))];
      && Paired(m, ExampleServletFile)
      && !Paired(ChangedAsWritten(m, [], removed, ExampleServletFile, contentOf), ExampleServletFile)
  {
    var m, b1 := ExampleMaps(), SourceBreakpoint(2, "b.jsp", 0);
    ExampleFiltered();
    RemovedAllOne(m, Source(b1), ExampleServletFile);
    AsWrittenExample();
  }

  /**
   * As written, removing a breakpoint just added gives every list back when
   * no servlet list before the JSP file's own is long enough for its index.
   */
  lemma AddedThenRemovedAsWritten(m: BreakpointMaps, bp: SourceBreakpoint, servletFileOf: string -> Option<string>,
                                  servletContent: Option<string>)
    requires Paired(m, servletFileOf) && Injective(servletFileOf) && OrderValid(m)
    requires bp !in Lookup(m.jsp, bp.path)
    requires var m1 := Added(m, bp, servletFileOf(bp.path), servletContent);
      m1 != m ==> FirstLonger(m1.servletFiles, m1.servlet, |Lookup(m.jsp, bp.path)|) == servletFileOf(bp.path)
    ensures var m' := RemovedAsWritten(Added(m, bp, servletFileOf(bp.path), servletContent), bp);
      forall k :: Lookup(m'.jsp, k) == Lookup(m.jsp, k) && Lookup(m'.servlet, k) == Lookup(m.servlet, k)
  {
    var m1 := Added(m, bp, servletFileOf(bp.path), servletContent);
    var list := Lookup(m.jsp, bp.path);
    if m1 != m {
      assert Lookup(m1.jsp, bp.path) == list + [bp];
      IndexOfAppended(list, bp);
      AddedKeepsPaired(m, bp, servletFileOf, servletContent);
      AddedKeepsOrder(m, bp, servletFileOf(bp.path), servletContent);
      AsWrittenAgreesIff(m1, bp, servletFileOf);
      AddedThenRemoved(m, bp, servletFileOf, servletContent);
    }
  }

  /** The example before `b.jsp`'s breakpoint was added: `a.jsp`'s alone. */
  function ExampleStart(): BreakpointMaps {
    BreakpointMaps(map["a.jsp" := [SourceBreakpoint(1, "a.jsp", 0)]], map["A.java" := [ServletBreakpoint("A.java", 0)]], ["A.java"])
  }

  /** Adding `b.jsp`'s breakpoint to it, with an empty `B.java`, gives the two-file example. */
  lemma ExampleAdded()
    ensures Added(ExampleStart(), SourceBreakpoint(2, "b.jsp", 0), Some("B.java"), Some("")) == ExampleMaps()
  {
    DistinctNames();
    assert Split("", '\n') == [""];
    NoSlashNoComment("");
    assert CommentNumbers([""]) == [None];
    assert FirstCommentFor([None], 1, 0) == None;
    assert MappedServletLine(Some(""), 1) == Some(1);
    var m := ExampleStart();
    assert "B.java" != "" && "B.java" !in m.servlet && "b.jsp" !in m.jsp;
    assert Lookup(m.jsp, "b.jsp") == [] && Lookup(m.servlet, "B.java") == [];
    var j := Push(m.jsp, "b.jsp", SourceBreakpoint(2, "b.jsp", 0));
    assert j.Keys == {"a.jsp", "b.jsp"};
    assert j["b.jsp"] == [SourceBreakpoint(2, "b.jsp", 0)];
    assert j["a.jsp"] == [SourceBreakpoint(1, "a.jsp", 0)];
    var v := Push(m.servlet, "B.java", ServletBreakpoint("B.java", 0));
    assert v.Keys == {"A.java", "B.java"};
    assert v["B.java"] == [ServletBreakpoint("B.java", 0)];
    assert v["A.java"] == [ServletBreakpoint("A.java", 0)];
    assert Push(m.jsp, "b.jsp", SourceBreakpoint(2, "b.jsp", 0)) == ExampleMaps().jsp;
    assert Push(m.servlet, "B.java", ServletBreakpoint("B.java", 0)) == ExampleMaps().servlet;
    assert m.servletFiles + ["B.java"] == ExampleMaps().servletFiles;
  }

  /**
   * Without the condition of `AddedThenRemovedAsWritten`, adding a
   * breakpoint and removing it as written does not give the lists back:
   * adding `b.jsp`'s to `ExampleStart` and removing it empties `A.java`'s.
   */
  lemma AddedThenRemovedAsWrittenFails()
    ensures var m, bp := ExampleStart(), SourceBreakpoint(2, "b.jsp", 0);
      && Paired(m, ExampleServletFile) && OrderValid(m) && bp !in Lookup(m.jsp, bp.path)
      && Lookup(RemovedAsWritten(Added(m, bp, ExampleServletFile(bp.path), Some("")), bp).servlet, "A.java")
         != Lookup(m.servlet, "A.java")
  {
    var m, bp := ExampleStart(), SourceBreakpoint(2, "b.jsp", 0);
    DistinctNames();
    assert ExampleServletFile(bp.path) == Some("B.java");
    ExampleAdded();
    ExampleFirstRemovals();
    assert Lookup(m.jsp, "b.jsp") == [];
    forall f | f in m.jsp ensures PairedFile(m, ExampleServletFile, f) {
      assert f == "a.jsp";
    }
    forall s | s in m.servlet ensures exists f :: f in m.jsp && ExampleServletFile(f) == Some(s) {
      assert "a.jsp" in m.jsp;
    }
  }

  // ---------------------------------------------------------------------
  // The filter
  // ---------------------------------------------------------------------

  lemma {:induction false} AddedAllOthers(m: BreakpointMaps, added: seq<Breakpoint>,
                                          servletFileOf: string -> Option<string>, contentOf: string -> Option<string>)
    requires forall b :: b in added ==> !IsJspBreakpoint(b)
    ensures AddedAll(m, added, servletFileOf, contentOf) == m
  {
    if added != [] {
      assert added[|added| - 1] in added;
      AddedAllOthers(m, added[..|added| - 1], servletFileOf, contentOf);
    }
  }

  lemma {:induction false} RemovedAllOthers(m: BreakpointMaps, removed: seq<Breakpoint>,
                                            servletFileOf: string -> Option<string>)
    requires forall b :: b in removed ==> !IsJspBreakpoint(b)
    ensures RemovedAll(m, removed, servletFileOf) == m
  {
    if removed != [] {
      assert removed[|removed| - 1] in removed;
      RemovedAllOthers(m, removed[..|removed| - 1], servletFileOf);
    }
  }

  lemma {:induction false} RemovedAllAsWrittenOthers(m: BreakpointMaps, removed: seq<Breakpoint>)
    requires forall b :: b in removed ==> !IsJspBreakpoint(b)
    ensures RemovedAllAsWritten(m, removed) == m
  {
    if removed != [] {
      assert removed[|removed| - 1] in removed;
      RemovedAllAsWrittenOthers(m, removed[..|removed| - 1]);
    }
  }

  /** An event without a source breakpoint on a `.jsp` path changes nothing, as written and corrected. */
  lemma ChangedOthers(m: BreakpointMaps, added: seq<Breakpoint>, removed: seq<Breakpoint>,
                      servletFileOf: string -> Option<string>, contentOf: string -> Option<string>)
    requires forall b :: b in added ==> !IsJspBreakpoint(b)
    requires forall b :: b in removed ==> !IsJspBreakpoint(b)
    ensures ChangedAsWritten(m, added, removed, servletFileOf, contentOf) == m
    ensures Changed(m, added, removed, servletFileOf, contentOf) == m
  {
    AddedAllOthers(m, added, servletFileOf, contentOf);
    RemovedAllOthers(m, removed, servletFileOf);
    RemovedAllAsWrittenOthers(m, removed);
  }

  /** The suffix test is case-sensitive: a `.JSP` file is not handled. */
  lemma UpperCaseSuffixIgnored(id: nat, stem: string, line: nat)
    ensures !IsJspBreakpoint(Source(SourceBreakpoint(id, stem + ".JSP", line)))
  {
    var path := stem + ".JSP";
    assert path[|path| - 3] == 'J';
  }
}
