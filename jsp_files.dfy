/**
 * The JSP files `JspMapper` recognises, and the way back from a servlet
 * class name to the JSP it was compiled from (`isJspFile`,
 * `getJspFileFromServletClass`).
 */
module JspFiles {
  import opened Options
  import opened Text
  import opened Config

  /** `isJspFile`: the lower-cased path ends in `.jsp` or `.jspx`. */
  predicate IsJspFile(path: string) {
    EndsWith(Lower(path), ".jsp") || EndsWith(Lower(path), ".jspx")
  }

  /** The last `t + 4` characters of `s` start with `.jsp`, each letter in either case. */
  predicate JspEnding(s: string, t: nat) {
    var e := |s| - t;
    e >= 4 && s[e - 4] == '.' && (s[e - 3] == 'j' || s[e - 3] == 'J')
    && (s[e - 2] == 's' || s[e - 2] == 'S') && (s[e - 1] == 'p' || s[e - 1] == 'P')
  }

  /** `isJspFile` letter by letter: `.jsp` at the end, or `.jsp` then `x`/`X`. */
  lemma IsJspFileLetters(path: string)
    ensures IsJspFile(path) <==>
      JspEnding(path, 0) || (JspEnding(path, 1) && (path[|path| - 1] == 'x' || path[|path| - 1] == 'X'))
  {
    EndsJsp(path);
    EndsJspx(path);
  }

  lemma EndsJsp(s: string)
    ensures EndsWith(Lower(s), ".jsp") <==> JspEnding(s, 0)
  {
    EndsWithLower(s, ".jsp");
    var n := |s|;
    if n >= 4 {
      var lit := ".jsp";
      assert (forall k :: 0 <= k < 4 ==> LowerChar(s[n - 4 + k]) == lit[k])
        <==> LowerChar(s[n - 4]) == '.' && LowerChar(s[n - 3]) == 'j' && LowerChar(s[n - 2]) == 's' && LowerChar(s[n - 1]) == 'p' by {
        assert lit[0] == '.' && lit[1] == 'j' && lit[2] == 's' && lit[3] == 'p';
        assert s[n - 4 + 0] == s[n - 4] && s[n - 4 + 1] == s[n - 3] && s[n - 4 + 2] == s[n - 2] && s[n - 4 + 3] == s[n - 1];
      }
    }
  }

  lemma EndsJspx(s: string)
    ensures EndsWith(Lower(s), ".jspx") <==> JspEnding(s, 1) && (s[|s| - 1] == 'x' || s[|s| - 1] == 'X')
  {
    EndsWithLower(s, ".jspx");
    var n := |s|;
    if n >= 5 {
      var lit := ".jspx";
      assert (forall k :: 0 <= k < 5 ==> LowerChar(s[n - 5 + k]) == lit[k])
        <==> LowerChar(s[n - 5]) == '.' && LowerChar(s[n - 4]) == 'j' && LowerChar(s[n - 3]) == 's'
             && LowerChar(s[n - 2]) == 'p' && LowerChar(s[n - 1]) == 'x' by {
        assert lit[0] == '.' && lit[1] == 'j' && lit[2] == 's' && lit[3] == 'p' && lit[4] == 'x';
        assert s[n - 5 + 0] == s[n - 5] && s[n - 5 + 1] == s[n - 4] && s[n - 5 + 2] == s[n - 3];
        assert s[n - 5 + 3] == s[n - 2] && s[n - 5 + 4] == s[n - 1];
      }
    }
  }

  /** Lower-cased, `s` ends in the literal `lit` exactly when each of its last characters folds to it. */
  lemma EndsWithLower(s: string, lit: string)
    ensures EndsWith(Lower(s), lit) <==> |lit| <= |s| && forall k :: 0 <= k < |lit| ==> LowerChar(s[|s| - |lit| + k]) == lit[k]
  {
    if |lit| <= |s| {
      var tail := Lower(s)[|s| - |lit|..];
      assert forall k :: 0 <= k < |lit| ==> tail[k] == LowerChar(s[|s| - |lit| + k]);
    }
  }

  // ---------------------------------------------------------------------
  // getJspFileFromServletClass
  // ---------------------------------------------------------------------

  /**
   * The string rewrite: the `org.apache.jsp.` prefix is required and
   * dropped, one `_jsp` suffix is dropped, every `_` becomes `/`, and `.jsp`
   * is appended.
   */
  function JspPathOfClass(servletClassName: string): Option<string> {
    if !StartsWith(servletClassName, ClassPrefix) then None
    else
      var jspPath := servletClassName[|ClassPrefix|..];
      var stem := if EndsWith(jspPath, "_jsp") then jspPath[..|jspPath| - 4] else jspPath;
      Some(ReplaceChar(stem, '_', '/') + ".jsp")
  }

  /** The directories tried in turn; the last, empty one stands for the workspace itself. */
  const JspSearchDirs: seq<string> := ["src/main/webapp", "WebContent", "web", "webapp", ""]

  /** The candidate path under the `i`-th directory: `path.join` without an empty middle segment. */
  function Candidate(workspace: string, i: nat, jspPath: string): string
    requires i < |JspSearchDirs|
  {
    if JspSearchDirs[i] != "" then JoinPath([workspace, JspSearchDirs[i], jspPath]) else JoinPath([workspace, jspPath])
  }

  /** The first candidate from the `i`-th directory on that exists. */
  function FirstExisting(workspace: string, jspPath: string, fileExists: string -> bool, i: nat): (r: Option<string>)
    requires i <= |JspSearchDirs|
    ensures r.Some? ==> fileExists(r.value)
    decreases |JspSearchDirs| - i
  {
    if i == |JspSearchDirs| then None
    else if fileExists(Candidate(workspace, i, jspPath)) then Some(Candidate(workspace, i, jspPath))
    else FirstExisting(workspace, jspPath, fileExists, i + 1)
  }

  /**
   * `getJspFileFromServletClass`: `None` for a name outside `org.apache.jsp`,
   * without a workspace, or when no candidate exists.
   */
  function JspFileFromServletClass(servletClassName: string, workspace: Option<string>,
                                   fileExists: string -> bool): Option<string> {
    match JspPathOfClass(servletClassName)
    case None => None
    case Some(jspPath) =>
      if workspace.None? then None else FirstExisting(workspace.value, jspPath, fileExists, 0)
  }

  method GetJspFileFromServletClass(servletClassName: string, workspace: Option<string>,
                                    fileExists: string -> bool) returns (r: Option<string>)
    ensures r == JspFileFromServletClass(servletClassName, workspace, fileExists)
  {
    var path := JspPathOfClass(servletClassName);
    if path.None? || workspace.None? {
      return None;
    }
    var jspPath := path.value;
    for i := 0 to |JspSearchDirs|
      invariant FirstExisting(workspace.value, jspPath, fileExists, i) == FirstExisting(workspace.value, jspPath, fileExists, 0)
    {
      var fullPath := Candidate(workspace.value, i, jspPath);
      if fileExists(fullPath) {
        return Some(fullPath);
      }
    }
    return None;
  }

  // ---------------------------------------------------------------------
  // Properties
  // ---------------------------------------------------------------------

  /** The search answers the earliest existing candidate, or nothing when none exists. */
  lemma {:induction false} FirstExistingSpec(workspace: string, jspPath: string, fileExists: string -> bool, i: nat)
    requires i <= |JspSearchDirs|
    ensures var r := FirstExisting(workspace, jspPath, fileExists, i);
      && (r.None? <==> forall j :: i <= j < |JspSearchDirs| ==> !fileExists(Candidate(workspace, j, jspPath)))
      && (r.Some? ==> exists j :: i <= j < |JspSearchDirs| && r.value == Candidate(workspace, j, jspPath)
                        && forall j' :: i <= j' < j ==> !fileExists(Candidate(workspace, j', jspPath)))
    decreases |JspSearchDirs| - i
  {
    if i < |JspSearchDirs| {
      FirstExistingSpec(workspace, jspPath, fileExists, i + 1);
    }
  }

  /**
   * From the class name of a JSP whose relative path has no `.` or `\` and
   * does not start with `/`, the rewrite gives the path back with every `_`
   * turned into `/`: the path itself when it has no `_`, another path when
   * it has (`my_page.jsp` comes back as `my/page.jsp`), the simplification
   * the source acknowledges.
   */
  lemma ClassNameRoundTrip(stem: string)
    requires '.' !in stem && '\\' !in stem
    requires stem == "" || stem[0] != '/'
    ensures JspPathOfClass(ServletClassName(stem + ".jsp")) == Some(ReplaceChar(stem, '_', '/') + ".jsp")
    ensures '_' !in stem ==> JspPathOfClass(ServletClassName(stem + ".jsp")) == Some(stem + ".jsp")
  {
    var once := ReplaceChar(stem, '/', '_');
    JspClassName(stem);
    JspPathOfJspClass(once);
    assert ReplaceChar(once, '_', '/') == ReplaceChar(stem, '_', '/');
    if '_' !in stem {
      assert ReplaceChar(stem, '_', '/') == stem;
    }
  }

  /** The class name of `stem.jsp`: the stem's `/`s become `_`, and `.jsp` becomes `_jsp`. */
  lemma JspClassName(stem: string)
    requires '.' !in stem && '\\' !in stem
    requires stem == "" || stem[0] != '/'
    ensures ServletClassName(stem + ".jsp") == ClassPrefix + (ReplaceChar(stem, '/', '_') + "_jsp")
  {
    var path := stem + ".jsp";
    var suffix := ReplaceChar(stem, '/', '_') + "_jsp";
    forall i | 0 <= i < |path| ensures path[i] != '\\' {
      if i < |stem| {
        assert path[i] == stem[i];
      }
    }
    assert |path| > 0 && path[0] != '/' by {
      if stem == "" {
        assert path[0] == '.';
      } else {
        assert path[0] == stem[0];
      }
    }
    forall i | 0 <= i < |path| ensures suffix[i] == ClassChar(path[i]) {
      if i < |stem| {
        assert path[i] == stem[i];
      }
    }
    ClassNameOf(path, suffix);
  }

  /** The rewrite on a name of the `_jsp` form. */
  lemma JspPathOfJspClass(x: string)
    ensures JspPathOfClass(ClassPrefix + (x + "_jsp")) == Some(ReplaceChar(x, '_', '/') + ".jsp")
  {
    var name := ClassPrefix + (x + "_jsp");
    assert name[..|ClassPrefix|] == ClassPrefix;
    var jspPath := name[|ClassPrefix|..];
    assert jspPath == x + "_jsp";
    assert jspPath[|jspPath| - 4..] == "_jsp";
    assert jspPath[..|jspPath| - 4] == x;
  }

  /** A name outside the `org.apache.jsp` package has no JSP. */
  lemma ForeignClassHasNoJsp(servletClassName: string, workspace: Option<string>, fileExists: string -> bool)
    requires !StartsWith(servletClassName, ClassPrefix)
    ensures JspFileFromServletClass(servletClassName, workspace, fileExists) == None
  {
  }
}
