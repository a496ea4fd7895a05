/**
 * `parseLineMapping`: the JSP-to-servlet table of a generated servlet's
 * source. Annotation comments come first (enhanced by interpolation), then
 * the SMAP table, then the heuristic spread over `_jspService`.
 */
module LineMapping {
  import opened Options
  import opened Text
  import opened LineTables
  import opened Resolve
  import opened Annotations
  import opened Enhance
  import opened Heuristic

  /** What each line of the servlet says, by the patterns of the `forEach` body. */
  function AnnotateLines(lines: seq<string>, target: string): seq<Annotation> {
    seq(|lines|, i requires 0 <= i < |lines| => Annotate(lines[i], target))
  }

  /** Line `i` (0-based) is an annotation of JSP line `k` that the target file accepts. */
  predicate AnnotatesAt(anns: seq<Annotation>, i: nat, k: nat) {
    i < |anns| && anns[i] == Annotated(k)
  }

  /** Line `i` is an accepted annotation of some JSP line. */
  predicate CountsAt(anns: seq<Annotation>, i: nat) {
    i < |anns| && anns[i].Annotated?
  }

  /**
   * The table the `forEach` has built after lines `[0, n)`: each accepted
   * annotation maps its JSP line to its own 1-based line number, a later
   * annotation of the same JSP line replacing an earlier one.
   */
  function CommentTable(anns: seq<Annotation>, n: nat): Table
    requires n <= |anns|
  {
    if n == 0 then Empty
    else
      var t := CommentTable(anns, n - 1);
      match anns[n - 1]
      case Annotated(k) => Set(t, k, n)
      case _ => t
  }

  /** `mappingCount` after lines `[0, n)`. */
  function CommentCount(anns: seq<Annotation>, n: nat): nat
    requires n <= |anns|
  {
    if n == 0 then 0
    else CommentCount(anns, n - 1) + (if CountsAt(anns, n - 1) then 1 else 0)
  }

  /**
   * What `parseLineMapping` returns for the servlet source, the target JSP
   * path (`""` when absent) and the table `parseSmapData` would return.
   */
  function LineMapping(servletContent: string, target: string, smapMappings: Table): Table {
    var lines := Split(servletContent, '\n');
    var anns := AnnotateLines(lines, target);
    if CommentCount(anns, |anns|) > 0 then Enhanced(CommentTable(anns, |anns|))
    else if Size(smapMappings) > 0 then smapMappings
    else HeuristicMapping(lines)
  }

  // ---------------------------------------------------------------------
  // The method
  // ---------------------------------------------------------------------

  method ParseLineMapping(servletContent: string, target: string, smapMappings: Table) returns (r: Table)
    ensures r == LineMapping(servletContent, target, smapMappings)
  {
    var lines := Split(servletContent, '\n');
    var lineMappings, mappingCount := ScanAnnotations(lines, target);
    if mappingCount > 0 {
      r := EnhanceLineMappings(lineMappings);
      return;
    }
    if Size(smapMappings) > 0 {
      return smapMappings;
    }
    r := CreateHeuristicMapping(servletContent);
  }

  /** The `forEach` over the servlet's lines. */
  method ScanAnnotations(lines: seq<string>, target: string) returns (lineMappings: Table, mappingCount: nat)
    ensures lineMappings == CommentTable(AnnotateLines(lines, target), |lines|)
    ensures mappingCount == CommentCount(AnnotateLines(lines, target), |lines|)
  {
    ghost var anns := AnnotateLines(lines, target);
    lineMappings, mappingCount := Empty, 0;
    for servletLineNumber := 0 to |lines|
      invariant lineMappings == CommentTable(anns, servletLineNumber)
      invariant mappingCount == CommentCount(anns, servletLineNumber)
    {
      var annotation := Annotate(lines[servletLineNumber], target);
      assert annotation == anns[servletLineNumber];
      ScanStep(anns, servletLineNumber);
      match annotation
      case Annotated(jspLineNumber) =>
        lineMappings := Set(lineMappings, jspLineNumber, servletLineNumber + 1);
        mappingCount := mappingCount + 1;
      case _ =>
    }
  }

  // ---------------------------------------------------------------------
  // The comment table
  // ---------------------------------------------------------------------

  /** One line more: an accepted annotation sets its JSP line and counts. */
  lemma ScanStep(anns: seq<Annotation>, n: nat)
    requires n < |anns|
    ensures anns[n].Annotated? ==> CommentTable(anns, n + 1) == Set(CommentTable(anns, n), anns[n].jspLine, n + 1)
    ensures anns[n].Annotated? ==> CommentCount(anns, n + 1) == CommentCount(anns, n) + 1
    ensures !anns[n].Annotated? ==> CommentTable(anns, n + 1) == CommentTable(anns, n)
    ensures !anns[n].Annotated? ==> CommentCount(anns, n + 1) == CommentCount(anns, n)
  {
  }

  /** A JSP line is in the comment table exactly when some line so far annotates it. */
  lemma {:induction false} CommentTableHas(anns: seq<Annotation>, n: nat, k: nat)
    requires n <= |anns|
    ensures Has(CommentTable(anns, n), k) <==> exists i :: 0 <= i < n && AnnotatesAt(anns, i, k)
  {
    if n > 0 {
      CommentTableHas(anns, n - 1, k);
      if AnnotatesAt(anns, n - 1, k) {
        assert exists i :: 0 <= i < n && AnnotatesAt(anns, i, k);
      }
    }
  }

  /** A JSP line maps to the last line annotating it. */
  lemma {:induction false} CommentTableLast(anns: seq<Annotation>, n: nat, i: nat, k: nat)
    requires i < n <= |anns| && AnnotatesAt(anns, i, k)
    requires forall j :: i < j < n ==> !AnnotatesAt(anns, j, k)
    ensures Has(CommentTable(anns, n), k) && Get(CommentTable(anns, n), k) == i + 1
  {
    if i < n - 1 {
      assert !AnnotatesAt(anns, n - 1, k);
      CommentTableLast(anns, n - 1, i, k);
    }
  }

  lemma {:induction false} CommentTableWellFormed(anns: seq<Annotation>, n: nat)
    requires n <= |anns|
    ensures WellFormed(CommentTable(anns, n))
  {
    if n > 0 {
      CommentTableWellFormed(anns, n - 1);
      match anns[n - 1]
      case Annotated(k) => SetWellFormed(CommentTable(anns, n - 1), k, n);
      case _ =>
    }
  }

  /** The count is positive exactly when some line so far is an accepted annotation. */
  lemma {:induction false} CommentCountPositive(anns: seq<Annotation>, n: nat)
    requires n <= |anns|
    ensures CommentCount(anns, n) > 0 <==> exists i :: 0 <= i < n && CountsAt(anns, i)
  {
    if n > 0 {
      CommentCountPositive(anns, n - 1);
    }
  }

  // ---------------------------------------------------------------------
  // What parseLineMapping returns
  // ---------------------------------------------------------------------

  /**
   * When line `i` of the servlet is the last accepted annotation of JSP line
   * `k`, the result maps `k` to that line's 1-based number.
   */
  lemma CommentsDecide(servletContent: string, target: string, smapMappings: Table, i: nat, k: nat)
    requires var anns := AnnotateLines(Split(servletContent, '\n'), target);
      && AnnotatesAt(anns, i, k)
      && forall j :: i < j ==> !AnnotatesAt(anns, j, k)
    ensures var t := LineMapping(servletContent, target, smapMappings);
      Has(t, k) && Get(t, k) == i + 1
  {
    var anns := AnnotateLines(Split(servletContent, '\n'), target);
    var comments := CommentTable(anns, |anns|);
    assert CountsAt(anns, i);
    CommentCountPositive(anns, |anns|);
    CommentTableLast(anns, |anns|, i, k);
    CommentTableWellFormed(anns, |anns|);
    EnhancedKeeps(comments, k);
  }

  /**
   * With an accepted annotation, the result holds the annotated JSP lines
   * and those bridged between two close ones, each with what
   * `findMappedLine` computes on the comment table.
   */
  lemma CommentsInterpolate(servletContent: string, target: string, smapMappings: Table, k: int)
    requires exists i :: CountsAt(AnnotateLines(Split(servletContent, '\n'), target), i)
    ensures var anns := AnnotateLines(Split(servletContent, '\n'), target);
      var comments := CommentTable(anns, |anns|);
      var t := LineMapping(servletContent, target, smapMappings);
      && (Has(t, k) <==> Has(comments, k) || Bridged(comments, k))
      && (Has(t, k) ==> Forward(comments, k) == Some(Get(t, k)))
  {
    var anns := AnnotateLines(Split(servletContent, '\n'), target);
    var comments := CommentTable(anns, |anns|);
    CommentCountPositive(anns, |anns|);
    CommentTableWellFormed(anns, |anns|);
    EnhancedAgreesWithForward(comments, k);
  }

  /**
   * Without an accepted annotation, a non-empty SMAP table is returned as
   * it is, and otherwise the heuristic table.
   */
  lemma NoComments(servletContent: string, target: string, smapMappings: Table)
    requires forall i :: !CountsAt(AnnotateLines(Split(servletContent, '\n'), target), i)
    ensures LineMapping(servletContent, target, smapMappings)
         == if Size(smapMappings) > 0 then smapMappings else HeuristicMapping(Split(servletContent, '\n'))
  {
    var anns := AnnotateLines(Split(servletContent, '\n'), target);
    CommentCountPositive(anns, |anns|);
  }

  /** `parseLineMapping` never returns an empty table. */
  lemma LineMappingNonEmpty(servletContent: string, target: string, smapMappings: Table)
    ensures Size(LineMapping(servletContent, target, smapMappings)) > 0
  {
    var lines := Split(servletContent, '\n');
    var anns := AnnotateLines(lines, target);
    var comments := CommentTable(anns, |anns|);
    CommentCountPositive(anns, |anns|);
    if CommentCount(anns, |anns|) > 0 {
      var i :| 0 <= i < |anns| && CountsAt(anns, i);
      var k := anns[i].jspLine;
      assert AnnotatesAt(anns, i, k);
      CommentTableHas(anns, |anns|, k);
      CommentTableWellFormed(anns, |anns|);
      EnhancedKeeps(comments, k);
      EnhancedWellFormed(comments);
      assert k in Enhanced(comments).order;
    } else if Size(smapMappings) == 0 {
      HeuristicWellFormed(lines);
    }
  }
}
