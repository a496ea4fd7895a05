/**
 * The tier chains of `JspMapper`: `mapJspLineToServletLine` and
 * `mapServletLineToJspLine` try the SMAP table `javap -v` prints, then the
 * SMAP table read from the class file's bytes, then the `//line` comments of
 * the generated `.java` source.
 *
 * What the file system and the `javap` subprocess give is passed in:
 * `classFile` is the content of the compiled class (`None` when no class
 * file was found or it does not exist), `javapOutput` the text `javap -v`
 * printed (`None` when running it failed), and `javaSource` the content of
 * the generated `.java` file (`None` when it was not found).
 */
module Tiers {
  import opened Options
  import opened Text
  import opened LineTables
  import opened Smap
  import opened Resolve
  import opened ReverseLookup
  import opened Annotations
  import opened LineMapping
  import opened JsMath

  // ---------------------------------------------------------------------
  // The `.java` comments
  // ---------------------------------------------------------------------

  /** What one line of the `.java` source says under the unanchored `//line N "x.jsp"` search. */
  function JavaAnnotation(line: string): Annotation {
    match FirstLineComment(line, 0)
    case Some(m) => Annotated(m.jspLine)
    case None => Unannotated
  }

  function JavaAnnotations(lines: seq<string>): seq<Annotation> {
    seq(|lines|, i requires 0 <= i < |lines| => JavaAnnotation(lines[i]))
  }

  /**
   * The servlet-to-JSP table of `fallbackReverseMapping` after lines
   * `[0, n)`: each commented line's 1-based number maps to its JSP line.
   */
  function ReverseCommentTable(anns: seq<Annotation>, n: nat): Table
    requires n <= |anns|
  {
    if n == 0 then Empty
    else
      var t := ReverseCommentTable(anns, n - 1);
      match anns[n - 1]
      case Annotated(k) => Set(t, n, k)
      case _ => t
  }

  /** One line more: a comment maps its own line to its JSP line. */
  lemma ReverseScanStep(anns: seq<Annotation>, n: nat)
    requires n < |anns|
    ensures anns[n].Annotated? ==> ReverseCommentTable(anns, n + 1) == Set(ReverseCommentTable(anns, n), n + 1, anns[n].jspLine)
    ensures !anns[n].Annotated? ==> ReverseCommentTable(anns, n + 1) == ReverseCommentTable(anns, n)
  {
  }

  /** The last commented line below `m` (0-based), a reference definition for the reverse fallback. */
  function LastAnnotatedBefore(anns: seq<Annotation>, m: nat): (r: Option<nat>)
    requires m <= |anns|
    ensures r.Some? ==> r.value < m && anns[r.value].Annotated?
    ensures r.Some? ==> forall j :: r.value < j < m ==> !anns[j].Annotated?
    ensures r.None? ==> forall j :: 0 <= j < m ==> !anns[j].Annotated?
  {
    if m == 0 then None
    else if anns[m - 1].Annotated? then Some(m - 1)
    else LastAnnotatedBefore(anns, m - 1)
  }

  /**
   * `fallbackToJavaSourceMapping`: the servlet line of the last comment
   * naming JSP line `q`, otherwise the estimate `max(50, 3 * q)`; `None`
   * without the `.java` file.
   */
  function FallbackForward(javaSource: Option<string>, q: int): Option<int> {
    match javaSource
    case None => None
    case Some(src) =>
      var anns := JavaAnnotations(Split(src, '\n'));
      var mappings := CommentTable(anns, |anns|);
      if Has(mappings, q) then Some(Get(mappings, q)) else Some(Max(50, q * 3))
  }

  /**
   * `fallbackReverseMapping`: the JSP line of the comment on servlet line
   * `g`, otherwise that of the closest commented line before it.
   */
  function FallbackReverse(javaSource: Option<string>, g: int): Option<int> {
    match javaSource
    case None => None
    case Some(src) =>
      ReverseTableLookup(JavaAnnotations(Split(src, '\n')), g)
  }

  /** The exact servlet line's JSP line, otherwise the closest commented line's below it. */
  function ReverseTableLookup(anns: seq<Annotation>, g: int): Option<int> {
    var rev := ReverseCommentTable(anns, |anns|);
    if Has(rev, g) then Some(Get(rev, g))
    else
      match Below(Entries(rev), g)
      case Some(e) => Some(e.value)
      case None => None
  }

  method FallbackToJavaSourceMapping(javaSource: Option<string>, jspLine: int) returns (r: Option<int>)
    ensures r == FallbackForward(javaSource, jspLine)
  {
    if javaSource.None? {
      return None;
    }
    var lines := Split(javaSource.value, '\n');
    ghost var anns := JavaAnnotations(lines);
    var mappings := Empty;
    for i := 0 to |lines|
      invariant mappings == CommentTable(anns, i)
    {
      var m := FirstLineComment(lines[i], 0);
      assert anns[i] == if m.Some? then Annotated(m.value.jspLine) else Unannotated;
      ScanStep(anns, i);
      if m.Some? {
        mappings := Set(mappings, m.value.jspLine, i + 1);
      }
    }
    if Has(mappings, jspLine) {
      return Some(Get(mappings, jspLine));
    }
    return Some(Max(50, jspLine * 3));
  }

  method FallbackReverseMapping(javaSource: Option<string>, servletLine: int) returns (r: Option<int>)
    ensures r == FallbackReverse(javaSource, servletLine)
  {
    if javaSource.None? {
      return None;
    }
    var lines := Split(javaSource.value, '\n');
    ghost var anns := JavaAnnotations(lines);
    var reverseMappings := Empty;
    for i := 0 to |lines|
      invariant reverseMappings == ReverseCommentTable(anns, i)
    {
      var m := FirstLineComment(lines[i], 0);
      assert anns[i] == if m.Some? then Annotated(m.value.jspLine) else Unannotated;
      ReverseScanStep(anns, i);
      if m.Some? {
        reverseMappings := Set(reverseMappings, i + 1, m.value.jspLine);
      }
    }
    if Has(reverseMappings, servletLine) {
      return Some(Get(reverseMappings, servletLine));
    }
    var closest := ClosestBelow(Entries(reverseMappings), servletLine);
    if closest.Some? {
      return Some(closest.value.value);
    }
    return None;
  }

  /** The pass keeping the greatest key `<= q` (strict `>`, from the sentinel `-1`). */
  method ClosestBelow(es: seq<Entry>, q: int) returns (closest: Option<Entry>)
    ensures closest == Below(es, q)
  {
    closest := None;
    for i := 0 to |es|
      invariant closest == Below(es[..i], q)
    {
      assert es[..i + 1] == es[..i] + [es[i]];
      assert es[..i + 1][..i] == es[..i];
      var e := es[i];
      if e.key <= q && (closest.None? || e.key > closest.value.key) {
        closest := Some(e);
      }
    }
    assert es[..|es|] == es;
  }

  // ---------------------------------------------------------------------
  // The tier chains
  // ---------------------------------------------------------------------

  /** `extractSmapUsingJavap`: the section `javap -v` printed, or the class file's bytes when it could not run. */
  function JavapStep(classBytes: seq<byte>, javapOutput: Option<string>): Table {
    match javapOutput
    case Some(out) => JavapTable(out)
    case None => ClassFileTable(classBytes)
  }

  /** `mapJspLineToServletLine`. */
  function JspToServlet(classFile: Option<seq<byte>>, javapOutput: Option<string>, javaSource: Option<string>,
                        jspLine: int): Option<int> {
    match classFile
    case None => None
    case Some(bytes) =>
      var smapMappings := JavapStep(bytes, javapOutput);
      if Size(smapMappings) == 0 then
        var fallbackMappings := ClassFileTable(bytes);
        if Size(fallbackMappings) == 0 then FallbackForward(javaSource, jspLine)
        else Forward(fallbackMappings, jspLine)
      else Forward(smapMappings, jspLine)
  }

  /** `mapServletLineToJspLine`. */
  function ServletToJsp(classFile: Option<seq<byte>>, javapOutput: Option<string>, javaSource: Option<string>,
                        servletLine: int): Option<int> {
    match classFile
    case None => None
    case Some(bytes) =>
      var smapMappings := JavapStep(bytes, javapOutput);
      if Size(smapMappings) == 0 then
        var fallbackMappings := ClassFileTable(bytes);
        if Size(fallbackMappings) == 0 then FallbackReverse(javaSource, servletLine)
        else Reverse(fallbackMappings, servletLine)
      else Reverse(smapMappings, servletLine)
  }

  method ExtractSmapFromClassFile(classBytes: seq<byte>, jspFileName: string) returns (mapping: Table)
    ensures mapping == ClassFileTable(classBytes)
  {
    var smapData := FindSmapInClassFile(Latin1(classBytes));
    if smapData.None? {
      return Empty;
    }
    mapping := ParseSmapContent(smapData.value, jspFileName);
  }

  method ExtractSmapUsingJavap(classBytes: seq<byte>, javapOutput: Option<string>, jspFileName: string)
    returns (mapping: Table)
    ensures mapping == JavapStep(classBytes, javapOutput)
  {
    if javapOutput.None? {
      mapping := ExtractSmapFromClassFile(classBytes, jspFileName);
      return;
    }
    var smapData := SourceDebugSection(javapOutput.value, 0);
    if smapData.None? {
      return Empty;
    }
    mapping := ParseSmapContent(smapData.value, jspFileName);
  }

  method MapJspLineToServletLine(classFile: Option<seq<byte>>, javapOutput: Option<string>,
                                 javaSource: Option<string>, jspFileName: string, jspLine: int)
    returns (r: Option<int>)
    ensures r == JspToServlet(classFile, javapOutput, javaSource, jspLine)
  {
    if classFile.None? {
      return None;
    }
    var smapMappings := ExtractSmapUsingJavap(classFile.value, javapOutput, jspFileName);
    if Size(smapMappings) == 0 {
      var fallbackMappings := ExtractSmapFromClassFile(classFile.value, jspFileName);
      if Size(fallbackMappings) == 0 {
        r := FallbackToJavaSourceMapping(javaSource, jspLine);
        return;
      }
      r := FindMappedLine(fallbackMappings, jspLine);
      return;
    }
    r := FindMappedLine(smapMappings, jspLine);
  }

  method MapServletLineToJspLine(classFile: Option<seq<byte>>, javapOutput: Option<string>,
                                 javaSource: Option<string>, jspFileName: string, servletLine: int)
    returns (r: Option<int>)
    ensures r == ServletToJsp(classFile, javapOutput, javaSource, servletLine)
  {
    if classFile.None? {
      return None;
    }
    var smapMappings := ExtractSmapUsingJavap(classFile.value, javapOutput, jspFileName);
    if Size(smapMappings) == 0 {
      var fallbackMappings := ExtractSmapFromClassFile(classFile.value, jspFileName);
      if Size(fallbackMappings) == 0 {
        r := FallbackReverseMapping(javaSource, servletLine);
        return;
      }
      r := FindReverseMappedLine(fallbackMappings, servletLine);
      return;
    }
    r := FindReverseMappedLine(smapMappings, servletLine);
  }

  // ---------------------------------------------------------------------
  // The `.java` comment fallbacks
  // ---------------------------------------------------------------------

  /** The reversed comment table holds exactly the commented lines, each with its JSP line. */
  lemma {:induction false} ReverseCommentTableSpec(anns: seq<Annotation>, n: nat, g: int)
    requires n <= |anns|
    ensures Has(ReverseCommentTable(anns, n), g) <==> 1 <= g <= n && anns[g - 1].Annotated?
    ensures Has(ReverseCommentTable(anns, n), g) ==> Get(ReverseCommentTable(anns, n), g) == anns[g - 1].jspLine
  {
    if n > 0 {
      ReverseCommentTableSpec(anns, n - 1, g);
    }
  }

  lemma {:induction false} ReverseCommentTableWellFormed(anns: seq<Annotation>, n: nat)
    requires n <= |anns|
    ensures WellFormed(ReverseCommentTable(anns, n))
  {
    if n > 0 {
      ReverseCommentTableWellFormed(anns, n - 1);
      match anns[n - 1]
      case Annotated(k) => SetWellFormed(ReverseCommentTable(anns, n - 1), n, k);
      case _ =>
    }
  }

  /**
   * The reverse fallback answers the JSP line of the last commented line
   * at or before servlet line `g`, and nothing when there is none.
   */
  lemma FallbackReverseSpec(src: string, g: int)
    ensures var anns := JavaAnnotations(Split(src, '\n'));
      var m := if g <= 0 then 0 else Min(g, |anns|);
      FallbackReverse(Some(src), g) == match LastAnnotatedBefore(anns, m)
        case Some(i) => Some(anns[i].jspLine)
        case None => None
  {
    var anns := JavaAnnotations(Split(src, '\n'));
    ReverseTableLookupSpec(anns, g);
  }

  lemma ReverseTableLookupSpec(anns: seq<Annotation>, g: int)
    ensures var m := if g <= 0 then 0 else Min(g, |anns|);
      ReverseTableLookup(anns, g) == match LastAnnotatedBefore(anns, m)
        case Some(i) => Some(anns[i].jspLine)
        case None => None
  {
    var rev := ReverseCommentTable(anns, |anns|);
    var m := if g <= 0 then 0 else Min(g, |anns|);
    ReverseCommentTableWellFormed(anns, |anns|);
    if Has(rev, g) {
      LookupHit(anns, rev, g, m);
    } else if Below(Entries(rev), g).Some? {
      var s := Below(Entries(rev), g).value.key;
      ClosestEntryIsComment(anns, rev, g, s);
      NoCommentBetween(anns, rev, g, m, s);
    } else {
      NoCommentBelow(anns, rev, g, m);
    }
  }

  /** Servlet line `g` itself is commented: it is the last commented line up to `g`. */
  lemma LookupHit(anns: seq<Annotation>, rev: Table, g: int, m: nat)
    requires rev == ReverseCommentTable(anns, |anns|) && Has(rev, g)
    requires m == if g <= 0 then 0 else Min(g, |anns|)
    ensures 1 <= g <= |anns| && LastAnnotatedBefore(anns, m) == Some(g - 1)
    ensures Get(rev, g) == anns[g - 1].jspLine
  {
    ReverseCommentTableSpec(anns, |anns|, g);
  }

  /** The entry `Below` picks is a commented line, with that line's JSP line. */
  lemma ClosestEntryIsComment(anns: seq<Annotation>, rev: Table, g: int, s: nat)
    requires rev == ReverseCommentTable(anns, |anns|) && WellFormed(rev)
    requires Below(Entries(rev), g).Some? && Below(Entries(rev), g).value.key == s
    ensures Has(rev, s) && 1 <= s <= |anns| && anns[s - 1].Annotated?
    ensures Below(Entries(rev), g).value.value == anns[s - 1].jspLine
  {
    var e := Below(Entries(rev), g).value;
    EntriesComplete(rev, s);
    ReverseCommentTableSpec(anns, |anns|, s);
    var i :| 0 <= i < |Entries(rev)| && Entries(rev)[i] == e;
  }

  /** Nothing below `g` in the table: no line before `g` is commented. */
  lemma NoCommentBelow(anns: seq<Annotation>, rev: Table, g: int, m: nat)
    requires rev == ReverseCommentTable(anns, |anns|) && WellFormed(rev)
    requires m == if g <= 0 then 0 else Min(g, |anns|)
    requires Below(Entries(rev), g).None?
    ensures LastAnnotatedBefore(anns, m) == None
  {
    forall j | 0 <= j < m ensures !anns[j].Annotated? {
      ReverseCommentTableSpec(anns, |anns|, j + 1);
      EntriesComplete(rev, j + 1);
    }
  }

  /** Between the closest commented line below `g` and `g` no line is commented. */
  lemma NoCommentBetween(anns: seq<Annotation>, rev: Table, g: int, m: nat, s: nat)
    requires rev == ReverseCommentTable(anns, |anns|) && WellFormed(rev)
    requires m == if g <= 0 then 0 else Min(g, |anns|)
    requires Below(Entries(rev), g).Some? && Below(Entries(rev), g).value.key == s
    requires Has(rev, s) && 1 <= s <= |anns| && anns[s - 1].Annotated?
    ensures s - 1 < m && LastAnnotatedBefore(anns, m) == Some(s - 1)
  {
    forall j | s - 1 < j < m ensures !anns[j].Annotated? {
      ReverseCommentTableSpec(anns, |anns|, j + 1);
      EntriesComplete(rev, j + 1);
    }
    var r := LastAnnotatedBefore(anns, m);
    assert r.Some? by {
      assert anns[s - 1].Annotated?;
    }
  }

  /** A comment naming JSP line `q`: the forward fallback answers the last such comment's line. */
  lemma FallbackForwardComment(src: string, q: nat, i: nat)
    requires var anns := JavaAnnotations(Split(src, '\n'));
      && AnnotatesAt(anns, i, q)
      && forall j :: i < j ==> !AnnotatesAt(anns, j, q)
    ensures FallbackForward(Some(src), q) == Some(i + 1)
  {
    var anns := JavaAnnotations(Split(src, '\n'));
    CommentTableLast(anns, |anns|, i, q);
  }

  /** No comment names JSP line `q`: the forward fallback estimates `max(50, 3q)`. */
  lemma FallbackForwardEstimate(src: string, q: int)
    requires q < 0 || forall j: nat :: !AnnotatesAt(JavaAnnotations(Split(src, '\n')), j, q)
    ensures FallbackForward(Some(src), q) == Some(Max(50, 3 * q))
    ensures FallbackForward(Some(src), q).value >= 50
  {
    var anns := JavaAnnotations(Split(src, '\n'));
    if q >= 0 {
      CommentTableHas(anns, |anns|, q);
      assert !Has(CommentTable(anns, |anns|), q) by {
        assert forall i: nat :: !AnnotatesAt(JavaAnnotations(Split(src, '\n')), i, q);
      }
    }
  }

  // ---------------------------------------------------------------------
  // The tier order
  // ---------------------------------------------------------------------

  /** The SMAP table the chain settles on, when it settles on one. */
  function ChosenTable(classBytes: seq<byte>, javapOutput: Option<string>): Option<Table> {
    var smap := JavapStep(classBytes, javapOutput);
    if Size(smap) > 0 then Some(smap)
    else if Size(ClassFileTable(classBytes)) > 0 then Some(ClassFileTable(classBytes))
    else None
  }

  lemma ChosenTableWellFormed(classBytes: seq<byte>, javapOutput: Option<string>)
    ensures ChosenTable(classBytes, javapOutput).Some? ==> WellFormed(ChosenTable(classBytes, javapOutput).value)
  {
    ClassFileTableWellFormed(classBytes);
    if javapOutput.Some? {
      JavapTableWellFormed(javapOutput.value);
    }
  }

  /**
   * Both chains consult the same table: the one `ChosenTable` settles on,
   * which is well-formed and non-empty; without one, both fall back to the
   * `.java` comments. A `javap` run whose output holds no SMAP takes the
   * same path as no `javap` at all.
   */
  lemma TiersShareTable(classBytes: seq<byte>, javapOutput: Option<string>, javaSource: Option<string>, q: int, g: int)
    ensures var t := ChosenTable(classBytes, javapOutput);
      && (t.Some? ==> && WellFormed(t.value) && Size(t.value) > 0
                      && JspToServlet(Some(classBytes), javapOutput, javaSource, q) == Forward(t.value, q)
                      && ServletToJsp(Some(classBytes), javapOutput, javaSource, g) == Reverse(t.value, g))
      && (t.None? ==> && JspToServlet(Some(classBytes), javapOutput, javaSource, q) == FallbackForward(javaSource, q)
                      && ServletToJsp(Some(classBytes), javapOutput, javaSource, g) == FallbackReverse(javaSource, g))
    ensures javapOutput.Some? && Size(JavapTable(javapOutput.value)) == 0 ==>
      && ChosenTable(classBytes, javapOutput) == ChosenTable(classBytes, None)
      && JspToServlet(Some(classBytes), javapOutput, javaSource, q) == JspToServlet(Some(classBytes), None, javaSource, q)
      && ServletToJsp(Some(classBytes), javapOutput, javaSource, g) == ServletToJsp(Some(classBytes), None, javaSource, g)
  {
    ChosenTableWellFormed(classBytes, javapOutput);
  }

  lemma ClassFileTableWellFormed(classBytes: seq<byte>)
    ensures WellFormed(ClassFileTable(classBytes))
  {
    match FindSmapInClassFile(Latin1(classBytes))
    case Some(smap) => SmapTableWellFormed(smap);
    case None =>
  }

  lemma JavapTableWellFormed(javapOutput: string)
    ensures WellFormed(JavapTable(javapOutput))
  {
    match SourceDebugSection(javapOutput, 0)
    case Some(smap) => SmapTableWellFormed(smap);
    case None =>
  }

  /**
   * With a class file, the forward chain gives up only when the table it
   * settled on has no JSP line at or before `q`, or when there is no table
   * and no `.java` file.
   */
  lemma JspToServletGivesUp(classBytes: seq<byte>, javapOutput: Option<string>, javaSource: Option<string>, q: int)
    ensures var t := ChosenTable(classBytes, javapOutput);
      JspToServlet(Some(classBytes), javapOutput, javaSource, q).None?
      <==> (t.Some? && forall k :: Has(t.value, k) ==> k > q) || (t.None? && javaSource.None?)
  {
    var t := ChosenTable(classBytes, javapOutput);
    ChosenTableWellFormed(classBytes, javapOutput);
    if t.Some? {
      ForwardNone(t.value, q);
    }
  }

  /** No line of the `.java` source before servlet line `g` (1-based, inclusive) is commented. */
  predicate NoCommentBefore(src: string, g: int) {
    var anns := JavaAnnotations(Split(src, '\n'));
    forall j :: 0 <= j < |anns| && j < g ==> !anns[j].Annotated?
  }

  /**
   * With a class file, the reverse chain gives up only when every servlet
   * line of the table it settled on is above `g`, or, without a table, when
   * there is no `.java` file or no commented line at or before `g`.
   */
  lemma ServletToJspGivesUp(classBytes: seq<byte>, javapOutput: Option<string>, javaSource: Option<string>, g: int)
    ensures var t := ChosenTable(classBytes, javapOutput);
      ServletToJsp(Some(classBytes), javapOutput, javaSource, g).None?
      <==> ((t.Some? && forall e :: e in Entries(t.value) ==> e.value > g)
            || (t.None? && (javaSource.None? || NoCommentBefore(javaSource.value, g))))
  {
    var t := ChosenTable(classBytes, javapOutput);
    if t.Some? {
      ReverseNone(Entries(t.value), g);
    } else if javaSource.Some? {
      var anns := JavaAnnotations(Split(javaSource.value, '\n'));
      FallbackReverseSpec(javaSource.value, g);
    }
  }
}
