/**
 * `ConfigurationManager`: where Tomcat (Jasper) keeps the servlet compiled
 * from a JSP, and the servlet's class name. Paths are `/`-separated strings;
 * the file system is a predicate `fileExists` on paths.
 */
module Config {
  import opened Options
  import opened Text

  /**
   * `config.json`. An absent optional entry is the empty string: the source
   * only ever tests these entries for truthiness, and JavaScript treats `""`
   * and `undefined` alike there.
   */
  datatype JspDebugConfig = JspDebugConfig(
    catalinaHome: string,
    catalinaBase: string,
    webappContext: string,
    jspSourceRoot: string)

  /**
   * `loadConfiguration` on the parsed file (`None` when it is missing or
   * does not parse): `catalinaHome` must be set and exist, and
   * `catalinaBase` defaults to it.
   */
  function LoadConfiguration(parsed: Option<JspDebugConfig>, homeExists: bool): (r: Option<JspDebugConfig>)
    ensures r.Some? ==> r.value.catalinaHome != "" && r.value.catalinaBase != ""
    ensures r.Some? <==> parsed.Some? && parsed.value.catalinaHome != "" && homeExists
  {
    match parsed
    case None => None
    case Some(config) =>
      if config.catalinaHome == "" || !homeExists then None
      else if config.catalinaBase == "" then Some(config.(catalinaBase := config.catalinaHome))
      else Some(config)
  }

  /** The singleton, which keeps the first configuration it loads. */
  class ConfigurationManager {
    var config: Option<JspDebugConfig>

    constructor()
      ensures config == None
    {
      config := None;
    }

    /** `this.config || this.loadConfiguration()`, where `loaded` is what loading would give. */
    method GetConfiguration(loaded: Option<JspDebugConfig>) returns (c: Option<JspDebugConfig>)
      modifies this
      ensures old(config).Some? ==> c == old(config) && config == old(config)
      ensures old(config).None? ==> c == loaded && config == loaded
    {
      if config.Some? {
        return config;
      }
      config := loaded;
      c := loaded;
    }
  }

  // ---------------------------------------------------------------------
  // Paths
  // ---------------------------------------------------------------------

  function NonEmptySegments(segments: seq<string>): seq<string> {
    if segments == [] then []
    else (if segments[0] == "" then [] else [segments[0]]) + NonEmptySegments(segments[1..])
  }

  /**
   * `path.join` on `/`-separated paths: the non-empty segments joined by `/`.
   * A `.` segment, or a doubled or trailing `/` inside a segment, is kept.
   */
  function JoinPath(segments: seq<string>): string {
    Join(NonEmptySegments(segments), '/')
  }

  /**
   * `path.relative(from, to)` for a `to` under `from`: what follows `from` and one `/`.
   * A text prefix test on unnormalised paths; otherwise `to` is returned as it is.
   */
  function RelativeTo(from: string, to: string): string {
    if StartsWith(to, from + "/") then to[|from| + 1..] else if to == from then "" else to
  }

  // ---------------------------------------------------------------------
  // getCompiledServletDirectory
  // ---------------------------------------------------------------------

  /** The web application: the argument, else the configured one, else `ROOT`. */
  function Context(config: JspDebugConfig, webappContext: string): string {
    if webappContext != "" then webappContext
    else if config.webappContext != "" then config.webappContext
    else "ROOT"
  }

  /** `catalinaBase || catalinaHome`. */
  function Base(config: JspDebugConfig): string {
    if config.catalinaBase != "" then config.catalinaBase else config.catalinaHome
  }

  /** `getCompiledServletDirectory` for a loaded configuration. */
  function CompiledServletDirectory(config: JspDebugConfig, webappContext: string): string {
    JoinPath([Base(config), "work", "Catalina", "localhost", Context(config, webappContext), "org", "apache", "jsp"])
  }

  // ---------------------------------------------------------------------
  // jspPathToServletClassName
  // ---------------------------------------------------------------------

  const ClassPrefix := "org.apache.jsp."

  /** Backslashes to `/`, then one leading `/` dropped. */
  function RelativeJspPath(jspPath: string): string {
    var s := ReplaceChar(jspPath, '\\', '/');
    if |s| > 0 && s[0] == '/' then s[1..] else s
  }

  /**
   * `jspPathToServletClassName`: every `/` and `.` of the relative path
   * becomes `_` (the final `.replace(/_jsp$/, '_jsp')` changes nothing), and
   * the package prefix goes in front.
   */
  function ServletClassName(jspPath: string): string {
    ClassPrefix + ReplaceChar(ReplaceChar(RelativeJspPath(jspPath), '/', '_'), '.', '_')
  }

  // ---------------------------------------------------------------------
  // findCompiledServletClass
  // ---------------------------------------------------------------------

  const WebappDirs: seq<string> := ["src/main/webapp", "WebContent", "web", "webapp"]

  /** `s.substring(start)`: empty when `start` is past the end. */
  function Substring(s: string, start: nat): string {
    if start <= |s| then s[start..] else ""
  }

  /**
   * The detection loop as written: the first directory that is a prefix of
   * the path, matched by `startsWith(webappDir)` and no separator, is cut
   * off together with the next character.
   */
  function StripWebappDirAsWritten(rel: string, i: nat): string
    requires i <= |WebappDirs|
    decreases |WebappDirs| - i
  {
    if i == |WebappDirs| then rel
    else if StartsWith(rel, WebappDirs[i]) then Substring(rel, |WebappDirs[i]| + 1)
    else StripWebappDirAsWritten(rel, i + 1)
  }

  /** The detection loop as intended: a directory matches only as a whole first segment. */
  function StripWebappDir(rel: string, i: nat): string
    requires i <= |WebappDirs|
    decreases |WebappDirs| - i
  {
    if i == |WebappDirs| then rel
    else if StartsWith(rel, WebappDirs[i] + "/") then rel[|WebappDirs[i]| + 1..]
    else StripWebappDir(rel, i + 1)
  }

  /** Which detection of the web-content directory a lookup runs. */
  datatype Detection =
    | AsWritten  // the source's loop: `startsWith(webappDir)`, then `substring(length + 1)`
    | Intended   // a directory matches only as a whole first segment

  function StripDetected(detection: Detection, rel: string): string {
    match detection
    case AsWritten => StripWebappDirAsWritten(rel, 0)
    case Intended => StripWebappDir(rel, 0)
  }

  /**
   * The path of the JSP below the web application's root: below
   * `jspSourceRoot` when it is configured (`None` when the JSP is not under
   * it, compared case-insensitively), otherwise below the workspace with a
   * conventional web-content directory removed by `detection`.
   */
  function WebRelativePath(detection: Detection, config: JspDebugConfig, workspace: string, jspPath: string): Option<string> {
    if config.jspSourceRoot != "" then
      var jspSourcePath := JoinPath([workspace, config.jspSourceRoot]);
      if !StartsWith(Lower(jspPath), Lower(jspSourcePath)) then None
      else Some(RelativeTo(jspSourcePath, jspPath))
    else
      Some(StripDetected(detection, RelativeTo(workspace, jspPath)))
  }

  /** The last segment's `.jsp` suffix becomes `_jsp.class`. */
  function ClassFileName(name: string): string {
    if EndsWith(name, ".jsp") then name[..|name| - 4] + "_jsp.class" else name
  }

  /** Where the class of the JSP at `relativePath` lies: its directories kept under `servletDir`. */
  function ClassFilePath(servletDir: string, relativePath: string): string {
    ClassFileOfParts(servletDir, Split(ReplaceChar(relativePath, '\\', '/'), '/'))
  }

  /** The same on the segments of the normalised path: the last is the file, the others its directories. */
  function ClassFileOfParts(servletDir: string, parts: seq<string>): string
    requires |parts| >= 1
  {
    var fileName := ClassFileName(parts[|parts| - 1]);
    var dirPath := Join(parts[..|parts| - 1], '/');
    if dirPath != "" then JoinPath([servletDir, dirPath, fileName]) else JoinPath([servletDir, fileName])
  }

  /** `classFilePath.replace('.class', '.java')`. */
  function JavaFilePath(classFilePath: string): string {
    ReplaceFirst(classFilePath, ".class", ".java")
  }

  /**
   * `findCompiledServletClass`: the class file's path when the class file,
   * or failing that the generated `.java` file, exists. The program runs it
   * with `AsWritten`; `Intended` is the lookup with the detection corrected.
   */
  function CompiledServletClass(detection: Detection, config: Option<JspDebugConfig>, webappContext: string, workspace: Option<string>,
                                fileExists: string -> bool, jspPath: string): Option<string>
  {
    if config.None? || workspace.None? then None
    else
      match WebRelativePath(detection, config.value, workspace.value, jspPath)
      case None => None
      case Some(relativePath) =>
        var classFilePath := ClassFilePath(CompiledServletDirectory(config.value, webappContext), relativePath);
        if fileExists(classFilePath) || fileExists(JavaFilePath(classFilePath)) then Some(classFilePath) else None
  }

  method FindCompiledServletClass(config: Option<JspDebugConfig>, webappContext: string, workspace: Option<string>,
                                  fileExists: string -> bool, jspPath: string) returns (r: Option<string>)
    ensures r == CompiledServletClass(AsWritten, config, webappContext, workspace, fileExists, jspPath)
  {
    if config.None? || workspace.None? {
      return None;
    }
    var servletDir := CompiledServletDirectory(config.value, webappContext);
    var relativePath := "";
    if config.value.jspSourceRoot != "" {
      var jspSourcePath := JoinPath([workspace.value, config.value.jspSourceRoot]);
      if !StartsWith(Lower(jspPath), Lower(jspSourcePath)) {
        return None;
      }
      relativePath := RelativeTo(jspSourcePath, jspPath);
    } else {
      var relativeFromWorkspace := RelativeTo(workspace.value, jspPath);
      relativePath := DetectWebappDir(relativeFromWorkspace);
    }
    var classFilePath := ClassFilePath(servletDir, relativePath);
    if fileExists(classFilePath) {
      return Some(classFilePath);
    }
    var javaFilePath := JavaFilePath(classFilePath);
    if fileExists(javaFilePath) {
      return Some(classFilePath);
    }
    return None;
  }

  /** The `for` loop over the conventional directories, with its `found` flag. */
  method DetectWebappDir(relativeFromWorkspace: string) returns (relativePath: string)
    ensures relativePath == StripWebappDirAsWritten(relativeFromWorkspace, 0)
  {
    var found := false;
    relativePath := "";
    var i := 0;
    while i < |WebappDirs|
      invariant i <= |WebappDirs| && !found
      invariant StripWebappDirAsWritten(relativeFromWorkspace, i) == StripWebappDirAsWritten(relativeFromWorkspace, 0)
      decreases |WebappDirs| - i
    {
      var webappDir := WebappDirs[i];
      if StartsWith(relativeFromWorkspace, webappDir) {
        relativePath := Substring(relativeFromWorkspace, |webappDir| + 1);
        found := true;
        break;
      }
      i := i + 1;
    }
    if !found {
      relativePath := relativeFromWorkspace;
    }
  }

  // ---------------------------------------------------------------------
  // The class name
  // ---------------------------------------------------------------------

  /** What one character of the relative path becomes in the class name. */
  function ClassChar(c: char): char {
    if c == '/' || c == '\\' || c == '.' then '_' else c
  }

  /**
   * The class name is the package prefix followed by the path without its
   * leading separator, each separator and dot turned into `_`; so the part
   * after the prefix holds no `/`, `\` or `.`.
   */
  lemma ServletClassNameShape(jspPath: string)
    ensures var name := ServletClassName(jspPath);
      var rest := if |jspPath| > 0 && (jspPath[0] == '/' || jspPath[0] == '\\') then jspPath[1..] else jspPath;
      && StartsWith(name, ClassPrefix)
      && |name| == |ClassPrefix| + |rest|
      && (forall i :: 0 <= i < |rest| ==> name[|ClassPrefix| + i] == ClassChar(rest[i]))
      && '/' !in name[|ClassPrefix|..] && '\\' !in name[|ClassPrefix|..] && '.' !in name[|ClassPrefix|..]
  {
    var name := ServletClassName(jspPath);
    var suffix := name[|ClassPrefix|..];
    forall i | 0 <= i < |suffix| ensures suffix[i] != '/' && suffix[i] != '\\' && suffix[i] != '.' {
      assert suffix[i] == name[|ClassPrefix| + i];
    }
  }

  /** The class name Jasper gives `index.jsp`. */
  lemma IndexClassName()
    ensures ServletClassName("index.jsp") == "org.apache.jsp.index_jsp"
  {
    ClassNameOf("index.jsp", "index_jsp");
  }

  /** The class name Jasper gives `admin/login.jsp`. */
  lemma NestedClassName()
    ensures ServletClassName("admin/login.jsp") == "org.apache.jsp.admin_login_jsp"
  {
    ClassNameOf("admin/login.jsp", "admin_login_jsp");
  }

  /** The class name of a path with no leading separator and no backslash, given its `ClassChar` image. */
  lemma ClassNameOf(jspPath: string, suffix: string)
    requires |jspPath| > 0 && jspPath[0] != '/' && '\\' !in jspPath
    requires |suffix| == |jspPath| && forall i :: 0 <= i < |jspPath| ==> suffix[i] == ClassChar(jspPath[i])
    ensures ServletClassName(jspPath) == ClassPrefix + suffix
  {
    assert ReplaceChar(jspPath, '\\', '/') == jspPath;
    var once := ReplaceChar(jspPath, '/', '_');
    assert ReplaceChar(once, '.', '_') == suffix;
  }

  // ---------------------------------------------------------------------
  // The servlet directory
  // ---------------------------------------------------------------------

  /**
   * The servlet directory is `<base>/work/Catalina/localhost/<context>/org/apache/jsp`,
   * no segment dropped: a loaded configuration always has a base (its
   * `catalinaBase`, defaulting to `catalinaHome`), and the context is never
   * empty.
   */
  lemma CompiledServletDirectoryLayout(parsed: Option<JspDebugConfig>, homeExists: bool, webappContext: string)
    requires LoadConfiguration(parsed, homeExists).Some?
    ensures var config := LoadConfiguration(parsed, homeExists).value;
      var base := if parsed.value.catalinaBase != "" then parsed.value.catalinaBase else parsed.value.catalinaHome;
      CompiledServletDirectory(config, webappContext)
      == Join([base, "work", "Catalina", "localhost", Context(config, webappContext), "org", "apache", "jsp"], '/')
  {
    var config := LoadConfiguration(parsed, homeExists).value;
    NonEmptyKept([Base(config), "work", "Catalina", "localhost", Context(config, webappContext), "org", "apache", "jsp"]);
  }

  /** `path.join` keeps every segment when none is empty. */
  lemma {:induction false} NonEmptyKept(segments: seq<string>)
    requires forall i :: 0 <= i < |segments| ==> segments[i] != ""
    ensures NonEmptySegments(segments) == segments
  {
    if segments != [] {
      NonEmptyKept(segments[1..]);
    }
  }

  // ---------------------------------------------------------------------
  // The web-content directory
  // ---------------------------------------------------------------------

  /** A path under one of the conventional directories loses exactly that directory and its `/`. */
  lemma StripWebappDirKnown(d: string, rest: string)
    requires d in WebappDirs
    ensures StripWebappDir(d + "/" + rest, 0) == rest
  {
    var rel := d + "/" + rest;
    if d == "src/main/webapp" {
      assert StartsWith(rel, WebappDirs[0] + "/");
    } else {
      assert !StartsWith(rel, WebappDirs[0] + "/") by {
        assert rel[0] != 's';
      }
      if d == "WebContent" {
        assert StartsWith(rel, WebappDirs[1] + "/");
      } else {
        assert !StartsWith(rel, WebappDirs[1] + "/") by {
          assert rel[0] != 'W';
        }
        if d == "web" {
          assert StartsWith(rel, WebappDirs[2] + "/");
        } else {
          assert !StartsWith(rel, WebappDirs[2] + "/") by {
            assert rel[3] == 'a';
          }
          assert StartsWith(rel, WebappDirs[3] + "/");
        }
      }
    }
  }

  /** Intended: a path under none of them is kept whole. */
  lemma StripWebappDirOther(rel: string)
    requires forall d :: d in WebappDirs ==> !StartsWith(rel, d + "/")
    ensures StripWebappDir(rel, 0) == rel
  {
    assert WebappDirs[0] in WebappDirs && WebappDirs[1] in WebappDirs;
    assert WebappDirs[2] in WebappDirs && WebappDirs[3] in WebappDirs;
  }

  /** As written: a path that starts with none of the names, separator or not, is kept whole. */
  lemma StripWebappDirAsWrittenOther(rel: string)
    requires forall d :: d in WebappDirs ==> !StartsWith(rel, d)
    ensures StripWebappDirAsWritten(rel, 0) == rel
  {
    assert WebappDirs[0] in WebappDirs && WebappDirs[1] in WebappDirs;
    assert WebappDirs[2] in WebappDirs && WebappDirs[3] in WebappDirs;
  }

  /**
   * As written, a path under `src/main/webapp`, `WebContent` or `web` loses
   * exactly that directory and its `/`: no earlier name is a prefix of it.
   */
  lemma StripWebappDirAsWrittenKnown(d: string, rest: string)
    requires d == "src/main/webapp" || d == "WebContent" || d == "web"
    ensures StripWebappDirAsWritten(d + "/" + rest, 0) == rest
  {
    var rel := d + "/" + rest;
    assert rel[..|d|] == d;
    assert rel[|d| + 1..] == rest;
    if d != "src/main/webapp" {
      assert !StartsWith(rel, WebappDirs[0]) by {
        assert rel[0] != 's';
      }
      if d != "WebContent" {
        assert !StartsWith(rel, WebappDirs[1]) by {
          assert rel[0] != 'W';
        }
      }
    }
  }

  /**
   * As written, `web` is a prefix of any name starting with it: a JSP under
   * `website/` loses `web` and the character after it, giving `ite/x`; the
   * intended detection keeps `website/x`.
   */
  lemma WebsiteLosesWeb(rest: string)
    ensures StripWebappDirAsWritten("website/" + rest, 0) == "ite/" + rest
    ensures StripWebappDir("website/" + rest, 0) == "website/" + rest
  {
    var rel := "website/" + rest;
    assert !StartsWith(rel, WebappDirs[0]) && !StartsWith(rel, WebappDirs[0] + "/") by {
      assert rel[0] != 's';
    }
    assert !StartsWith(rel, WebappDirs[1]) && !StartsWith(rel, WebappDirs[1] + "/") by {
      assert rel[0] != 'W';
    }
    assert StartsWith(rel, WebappDirs[2]) by {
      assert rel[..3] == "web";
    }
    assert !StartsWith(rel, WebappDirs[2] + "/") by {
      assert rel[3] == 's';
    }
    assert !StartsWith(rel, WebappDirs[3] + "/") by {
      assert rel[3] == 's';
    }
    assert rel[4..] == "ite/" + rest;
  }

  /**
   * As written, `web` is tried before `webapp` and without a separator, so
   * a JSP under `webapp/` loses only `web` and the character after it:
   * `webapp/x` becomes `pp/x`. The intended detection gives `x`.
   */
  lemma WebShadowsWebapp(rest: string)
    ensures StripWebappDirAsWritten("webapp/" + rest, 0) == "pp/" + rest
    ensures StripWebappDir("webapp/" + rest, 0) == rest
  {
    var rel := "webapp/" + rest;
    assert !StartsWith(rel, WebappDirs[0]) by {
      assert rel[0] != 's';
    }
    assert !StartsWith(rel, WebappDirs[1]) by {
      assert rel[0] != 'W';
    }
    assert StartsWith(rel, WebappDirs[2]) by {
      assert rel[..3] == "web";
    }
    assert rel[4..] == "pp/" + rest;
    StripWebappDirKnown("webapp", rest);
  }

  // ---------------------------------------------------------------------
  // The class file
  // ---------------------------------------------------------------------

  /** Segments free of `/` and `\\` (and non-empty, for directories). */
  predicate PlainSegment(d: string) {
    '/' !in d && '\\' !in d
  }

  /**
   * The class file of `dir1/.../dirN/stem.jsp` is
   * `servletDir/dir1/.../dirN/stem_jsp.class`: the directories are kept and
   * only the last segment's `.jsp` suffix changes.
   */
  lemma ClassFilePathLayout(servletDir: string, dirs: seq<string>, stem: string)
    requires servletDir != "" && PlainSegment(stem)
    requires forall i :: 0 <= i < |dirs| ==> dirs[i] != "" && PlainSegment(dirs[i])
    ensures ClassFilePath(servletDir, Join(dirs + [stem + ".jsp"], '/'))
         == Join([servletDir] + dirs + [stem + "_jsp.class"], '/')
  {
    var parts := dirs + [stem + ".jsp"];
    JspNamePlain(stem);
    PlainParts(dirs, stem + ".jsp");
    SplitPlain(parts);
    ClassFileOfPartsLayout(servletDir, dirs, stem);
  }

  lemma JspNamePlain(stem: string)
    requires PlainSegment(stem)
    ensures PlainSegment(stem + ".jsp")
  {
    var s := stem + ".jsp";
    forall k | 0 <= k < |s| ensures s[k] != '/' && s[k] != '\\' {
      if k < |stem| {
        assert s[k] == stem[k];
      }
    }
  }

  lemma PlainParts(dirs: seq<string>, file: string)
    requires PlainSegment(file)
    requires forall i :: 0 <= i < |dirs| ==> PlainSegment(dirs[i])
    ensures forall i :: 0 <= i < |dirs + [file]| ==> PlainSegment((dirs + [file])[i])
  {
  }

  /** Segments free of both separators come back from normalising and splitting their join. */
  lemma SplitPlain(parts: seq<string>)
    requires |parts| >= 1 && forall i :: 0 <= i < |parts| ==> PlainSegment(parts[i])
    ensures Split(ReplaceChar(Join(parts, '/'), '\\', '/'), '/') == parts
  {
    forall p | p in parts ensures '/' !in p && '\\' !in p {
      var i :| 0 <= i < |parts| && parts[i] == p;
    }
    JoinAvoids(parts, '/', '\\');
    assert ReplaceChar(Join(parts, '/'), '\\', '/') == Join(parts, '/');
    SplitJoin(parts, '/');
  }

  lemma ClassFileOfPartsLayout(servletDir: string, dirs: seq<string>, stem: string)
    requires servletDir != ""
    requires forall i :: 0 <= i < |dirs| ==> dirs[i] != ""
    ensures ClassFileOfParts(servletDir, dirs + [stem + ".jsp"]) == Join([servletDir] + dirs + [stem + "_jsp.class"], '/')
  {
    var name := stem + "_jsp.class";
    ClassFileOfPartsUnfold(servletDir, dirs, stem);
    if dirs == [] {
      JoinPathTwo(servletDir, name);
    } else {
      JoinUnder(servletDir, dirs, name);
    }
  }

  /** The file name and the directory path `ClassFileOfParts` works out for `dirs + [stem.jsp]`. */
  lemma ClassFileOfPartsUnfold(servletDir: string, dirs: seq<string>, stem: string)
    requires forall i :: 0 <= i < |dirs| ==> dirs[i] != ""
    ensures ClassFileOfParts(servletDir, dirs + [stem + ".jsp"])
         == if dirs == [] then JoinPath([servletDir, stem + "_jsp.class"])
            else JoinPath([servletDir, Join(dirs, '/'), stem + "_jsp.class"])
  {
    var file := stem + ".jsp";
    var parts := dirs + [file];
    assert parts[..|parts| - 1] == dirs;
    assert file[..|file| - 4] == stem;
    assert ClassFileName(file) == stem + "_jsp.class";
    if dirs != [] {
      JoinStartsWith(dirs, '/');
    }
  }

  /** Joining three non-empty segments, the middle one a join itself. */
  lemma JoinUnder(servletDir: string, dirs: seq<string>, name: string)
    requires servletDir != "" && name != "" && |dirs| >= 1
    requires forall i :: 0 <= i < |dirs| ==> dirs[i] != ""
    ensures JoinPath([servletDir, Join(dirs, '/'), name]) == Join([servletDir] + dirs + [name], '/')
  {
    var dirPath := Join(dirs, '/');
    JoinStartsWith(dirs, '/');
    JoinPathThree(servletDir, dirPath, name);
    JoinAround(servletDir, dirs, name);
  }

  /** `path.join` of three non-empty segments puts `/` between them. */
  lemma JoinPathThree(a: string, b: string, c: string)
    requires a != "" && b != "" && c != ""
    ensures JoinPath([a, b, c]) == a + "/" + b + "/" + c
  {
    NonEmptyKept([a, b, c]);
    JoinCons(a, [b, c], '/');
    JoinCons(b, [c], '/');
  }

  /** `path.join` of two non-empty segments puts `/` between them. */
  lemma JoinPathTwo(a: string, c: string)
    requires a != "" && c != ""
    ensures JoinPath([a, c]) == Join([a] + [] + [c], '/')
  {
    NonEmptyKept([a, c]);
    assert [a] + [] + [c] == [a, c];
  }

  /** Joining with one more segment on each side. */
  lemma JoinAround(a: string, dirs: seq<string>, c: string)
    requires |dirs| >= 1
    ensures Join([a] + dirs + [c], '/') == a + "/" + Join(dirs, '/') + "/" + c
  {
    var x := Join(dirs, '/');
    JoinSnoc(dirs, c, '/');
    assert [a] + dirs + [c] == [a] + (dirs + [c]);
    JoinCons(a, dirs + [c], '/');
    assert Join([a] + dirs + [c], '/') == a + ['/'] + (x + ['/'] + c);
    Regroup(a, x, c);
  }


  lemma {:induction false} JoinAvoids(parts: seq<string>, sep: char, c: char)
    requires c != sep && forall p :: p in parts ==> c !in p
    ensures c !in Join(parts, sep)
  {
    if |parts| > 1 {
      assert parts[0] in parts;
      JoinAvoids(parts[1..], sep, c);
    } else if |parts| == 1 {
      assert parts[0] in parts;
    }
  }

  lemma JoinStartsWith(parts: seq<string>, sep: char)
    requires |parts| >= 1 && parts[0] != ""
    ensures Join(parts, sep) != ""
  {
  }

  lemma {:induction false} JoinSnoc(parts: seq<string>, last: string, sep: char)
    requires |parts| >= 1
    ensures Join(parts + [last], sep) == Join(parts, sep) + [sep] + last
  {
    if |parts| == 1 {
      assert (parts + [last])[1..] == [last];
    } else {
      assert (parts + [last])[1..] == parts[1..] + [last];
      JoinSnoc(parts[1..], last, sep);
    }
  }

  // ---------------------------------------------------------------------
  // findCompiledServletClass, end to end
  // ---------------------------------------------------------------------

  /**
   * Without `jspSourceRoot`, a JSP at `<workspace>/<d>/dir1/.../stem.jsp`
   * under a conventional directory `d` has its class at
   * `<servletDir>/dir1/.../stem_jsp.class`, when that file or the `.java`
   * file beside it exists. The program does so for every directory but
   * `webapp` (see `FindsClassUnderWebappAsWritten`); the intended
   * detection, for all four.
   */
  lemma FindsClassUnderWebappDir(detection: Detection, config: JspDebugConfig, webappContext: string, workspace: string,
                                 fileExists: string -> bool, d: string, dirs: seq<string>, stem: string)
    requires config.jspSourceRoot == "" && d in WebappDirs && PlainSegment(stem)
    requires detection == AsWritten ==> d != "webapp"
    requires forall i :: 0 <= i < |dirs| ==> dirs[i] != "" && PlainSegment(dirs[i])
    ensures var rel := Join(dirs + [stem + ".jsp"], '/');
      var classFilePath := Join([CompiledServletDirectory(config, webappContext)] + dirs + [stem + "_jsp.class"], '/');
      CompiledServletClass(detection, Some(config), webappContext, Some(workspace), fileExists, workspace + "/" + d + "/" + rel)
      == if fileExists(classFilePath) || fileExists(JavaFilePath(classFilePath)) then Some(classFilePath) else None
  {
    var rel := Join(dirs + [stem + ".jsp"], '/');
    UnderWebappDir(detection, config, workspace, d, rel);
    ClassOfRelative(detection, config, webappContext, workspace, fileExists, workspace + "/" + d + "/" + rel, dirs, stem);
  }

  /**
   * As written, a JSP at `<workspace>/webapp/dir1/.../stem.jsp` is looked
   * for at `<servletDir>/pp/dir1/.../stem_jsp.class`.
   */
  lemma FindsClassUnderWebappAsWritten(config: JspDebugConfig, webappContext: string, workspace: string,
                                       fileExists: string -> bool, dirs: seq<string>, stem: string)
    requires config.jspSourceRoot == "" && PlainSegment(stem)
    requires forall i :: 0 <= i < |dirs| ==> dirs[i] != "" && PlainSegment(dirs[i])
    ensures var rel := Join(dirs + [stem + ".jsp"], '/');
      var classFilePath := Join([CompiledServletDirectory(config, webappContext)] + (["pp"] + dirs) + [stem + "_jsp.class"], '/');
      CompiledServletClass(AsWritten, Some(config), webappContext, Some(workspace), fileExists, workspace + "/webapp/" + rel)
      == if fileExists(classFilePath) || fileExists(JavaFilePath(classFilePath)) then Some(classFilePath) else None
  {
    var rel := Join(dirs + [stem + ".jsp"], '/');
    UnderWebappAsWritten(config, workspace, rel);
    UnderPp(dirs, stem);
    ClassOfRelative(AsWritten, config, webappContext, workspace, fileExists, workspace + "/webapp/" + rel, ["pp"] + dirs, stem);
  }

  /** `pp/` in front of a relative path is one more plain directory segment. */
  lemma UnderPp(dirs: seq<string>, stem: string)
    requires forall i :: 0 <= i < |dirs| ==> dirs[i] != "" && PlainSegment(dirs[i])
    ensures "pp/" + Join(dirs + [stem + ".jsp"], '/') == Join((["pp"] + dirs) + [stem + ".jsp"], '/')
    ensures forall i :: 0 <= i < |["pp"] + dirs| ==> (["pp"] + dirs)[i] != "" && PlainSegment((["pp"] + dirs)[i])
  {
    JoinCons("pp", dirs + [stem + ".jsp"], '/');
    assert ["pp"] + (dirs + [stem + ".jsp"]) == (["pp"] + dirs) + [stem + ".jsp"];
    assert PlainSegment("pp");
    forall i | 0 <= i < |["pp"] + dirs| ensures (["pp"] + dirs)[i] != "" && PlainSegment((["pp"] + dirs)[i]) {
      if i > 0 {
        assert (["pp"] + dirs)[i] == dirs[i - 1];
      }
    }
  }

  /** The workspace-relative path of a file under the workspace. */
  lemma RelativeUnderWorkspace(workspace: string, d: string, rel: string)
    ensures RelativeTo(workspace, workspace + "/" + d + "/" + rel) == d + "/" + rel
  {
    var jspPath := workspace + "/" + d + "/" + rel;
    Regroup(workspace, d, rel);
    assert StartsWith(jspPath, workspace + "/");
  }

  /**
   * Without `jspSourceRoot`, the conventional directory is cut off the
   * workspace-relative path: by the intended detection for all four, and
   * as written for all but `webapp`.
   */
  lemma UnderWebappDir(detection: Detection, config: JspDebugConfig, workspace: string, d: string, rel: string)
    requires config.jspSourceRoot == "" && d in WebappDirs
    requires detection == AsWritten ==> d != "webapp"
    ensures WebRelativePath(detection, config, workspace, workspace + "/" + d + "/" + rel) == Some(rel)
  {
    RelativeUnderWorkspace(workspace, d, rel);
    if detection == Intended {
      StripWebappDirKnown(d, rel);
    } else {
      StripWebappDirAsWrittenKnown(d, rel);
    }
  }

  /** As written, a JSP under `webapp/` keeps `pp/` in front of its path. */
  lemma UnderWebappAsWritten(config: JspDebugConfig, workspace: string, rel: string)
    requires config.jspSourceRoot == ""
    ensures WebRelativePath(AsWritten, config, workspace, workspace + "/webapp/" + rel) == Some("pp/" + rel)
  {
    assert workspace + "/webapp/" + rel == workspace + "/" + "webapp" + "/" + rel;
    RelativeUnderWorkspace(workspace, "webapp", rel);
    WebShadowsWebapp(rel);
  }

  /** With `jspSourceRoot`, the path below `<workspace>/<jspSourceRoot>` is kept, whichever detection runs. */
  lemma UnderSourceRoot(detection: Detection, config: JspDebugConfig, workspace: string, rel: string)
    requires config.jspSourceRoot != ""
    ensures WebRelativePath(detection, config, workspace, JoinPath([workspace, config.jspSourceRoot]) + "/" + rel) == Some(rel)
  {
    var root := JoinPath([workspace, config.jspSourceRoot]);
    var jspPath := root + "/" + rel;
    LowerPrefix(root, "/" + rel);
    assert jspPath == root + ("/" + rel);
    assert StartsWith(jspPath, root + "/");
  }

  /** Once the web-relative path is `dir1/.../stem.jsp`, the class is looked for beside the servlet directory's copy of it. */
  lemma ClassOfRelative(detection: Detection, config: JspDebugConfig, webappContext: string, workspace: string,
                        fileExists: string -> bool, jspPath: string, dirs: seq<string>, stem: string)
    requires PlainSegment(stem)
    requires forall i :: 0 <= i < |dirs| ==> dirs[i] != "" && PlainSegment(dirs[i])
    requires WebRelativePath(detection, config, workspace, jspPath) == Some(Join(dirs + [stem + ".jsp"], '/'))
    ensures var classFilePath := Join([CompiledServletDirectory(config, webappContext)] + dirs + [stem + "_jsp.class"], '/');
      CompiledServletClass(detection, Some(config), webappContext, Some(workspace), fileExists, jspPath)
      == if fileExists(classFilePath) || fileExists(JavaFilePath(classFilePath)) then Some(classFilePath) else None
  {
    DirectoryNotEmpty(config, webappContext);
    ClassFilePathLayout(CompiledServletDirectory(config, webappContext), dirs, stem);
  }

  /**
   * With `jspSourceRoot`, a JSP outside `<workspace>/<jspSourceRoot>`
   * (compared ignoring ASCII case) has no class file.
   */
  lemma OutsideSourceRoot(detection: Detection, config: JspDebugConfig, webappContext: string, workspace: string,
                          fileExists: string -> bool, jspPath: string)
    requires config.jspSourceRoot != ""
    requires !StartsWith(Lower(jspPath), Lower(JoinPath([workspace, config.jspSourceRoot])))
    ensures CompiledServletClass(detection, Some(config), webappContext, Some(workspace), fileExists, jspPath) == None
  {
  }

  /**
   * With `jspSourceRoot`, a JSP at `<workspace>/<jspSourceRoot>/dir1/.../stem.jsp`
   * has its class at `<servletDir>/dir1/.../stem_jsp.class`.
   */
  lemma FindsClassUnderSourceRoot(detection: Detection, config: JspDebugConfig, webappContext: string, workspace: string,
                                  fileExists: string -> bool, dirs: seq<string>, stem: string)
    requires config.jspSourceRoot != "" && PlainSegment(stem)
    requires forall i :: 0 <= i < |dirs| ==> dirs[i] != "" && PlainSegment(dirs[i])
    ensures var root := JoinPath([workspace, config.jspSourceRoot]);
      var rel := Join(dirs + [stem + ".jsp"], '/');
      var classFilePath := Join([CompiledServletDirectory(config, webappContext)] + dirs + [stem + "_jsp.class"], '/');
      CompiledServletClass(detection, Some(config), webappContext, Some(workspace), fileExists, root + "/" + rel)
      == if fileExists(classFilePath) || fileExists(JavaFilePath(classFilePath)) then Some(classFilePath) else None
  {
    var root := JoinPath([workspace, config.jspSourceRoot]);
    var rel := Join(dirs + [stem + ".jsp"], '/');
    UnderSourceRoot(detection, config, workspace, rel);
    ClassOfRelative(detection, config, webappContext, workspace, fileExists, root + "/" + rel, dirs, stem);
  }

  /** Lower-casing keeps a prefix a prefix. */
  lemma LowerPrefix(a: string, b: string)
    ensures StartsWith(Lower(a + b), Lower(a))
  {
    assert Lower(a + b)[..|a|] == Lower(a);
  }

  lemma Regroup(a: string, b: string, c: string)
    ensures a + "/" + b + "/" + c == (a + "/") + (b + "/" + c)
  {
  }

  lemma DirectoryNotEmpty(config: JspDebugConfig, webappContext: string)
    ensures CompiledServletDirectory(config, webappContext) != ""
  {
    var segments := [Base(config), "work", "Catalina", "localhost", Context(config, webappContext), "org", "apache", "jsp"];
    assert segments[1..][0] == "work";
    assert NonEmptySegments(segments) == NonEmptySegments(segments[..1]) + NonEmptySegments(segments[1..]) by {
      assert segments == [segments[0]] + segments[1..];
    }
  }
}
