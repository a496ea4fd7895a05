# jsp-glass line mapping, modelled in Dafny

jsp-glass is a VS Code extension for debugging JSP pages that run on Tomcat.
Jasper compiles every JSP into a Java servlet. To stop on a JSP line, the
extension must know the servlet line it became, and to show a servlet
position in the JSP it needs the opposite. This project models the parts
of the extension that compute those translations and proves what they
promise.

- **SMAP parsing** (module `Smap`, `smap.dfy`). `parseSmapContent` reads
  the SMAP text of JSR-45 (Debugging Support for Other Languages): the `*F`
  file section, the `*L` line section with its `a[,b]:c[,d]` and `a#f:c[,n]`
  records, and the `*E*` end marker. The loop with its four flags is a
  method proved equal to a line-by-line state machine (`Step`, `Run`). The
  SMAP text travels in the `SourceDebugExtension` attribute of the class
  file (section 4.7.11 of the Java Virtual Machine Specification).
  `findSmapInClassFile` cuts it out of the class file's Latin-1 text.
  `extractSmapFromJavapOutput` takes the section that `javap -v` prints.
- **Line tables** (module `LineTables`). A JavaScript `Map<number, number>`
  is a `Table`: a map plus the keys' insertion order, which `entries()` and
  a stable `sort` follow.
- **Forward and reverse resolution** (modules `Resolve`, `ReverseLookup`).
  `findMappedLine` goes from a JSP line to a servlet line: exact match,
  else interpolation with `Math.round`, else a 1:1 offset.
  `findReverseMappedLine` goes back: exact match, else a walk over the
  entries sorted by servlet line.
- **Annotation comments** (modules `Annotations`, `LineMapping`,
  `Enhance`, `Heuristic`). `parseLineMapping` reads four comment shapes.
  Its regular expressions are written out as matchers with JavaScript's
  semantics. `enhanceLineMappings` fills short gaps by interpolation.
  `createHeuristicMapping` spreads JSP lines over `_jspService` when
  nothing else is known.
- **Tier chains** (module `Tiers`). `mapJspLineToServletLine` and
  `mapServletLineToJspLine` try, in order:
  - the `javap` table;
  - the class-file table;
  - the `//line` comments of the generated `.java` file.

  The forward chain ends with the estimate `max(50, 3q)`.
- **Paths and names** (modules `Config`, `JspFiles`). These cover:
  - `jspPathToServletClassName`;
  - the Tomcat work directory;
  - `findCompiledServletClass`, which maps a JSP path to its class file;
  - `isJspFile`;
  - `getJspFileFromServletClass`, the way back from a class name to a JSP.
- **Breakpoint bookkeeping** (module `Breakpoints`). `JspBreakpointManager`
  keeps each JSP file's breakpoints and each servlet file's breakpoints in
  two maps of lists. The invariant `Paired` says the two stay parallel:
  the servlet list of a JSP file's servlet is as long as that JSP file's
  list. `Paired` requires the JSP-to-servlet assignment to be injective.
  The source's removal takes the servlet breakpoint from the first servlet
  list in map order that is long enough, which need not be the paired one,
  so as written it can break `Paired` (see Findings). The handler is
  modelled as written (`ChangedAsWritten`); the corrected removal
  (`Removed`, `Changed`) keeps `Paired`, and the two agree while every
  removal's first long-enough list is its own (`RemovalsAgree`).
- **Web-content directory detection** (module `Config`). A `Detection`
  value chooses between the source's `startsWith` test (`AsWritten`, which
  `findCompiledServletClass` uses) and the corrected whole-segment test
  (`Intended`); see Findings.

Everything the extension reads from outside is a parameter: file contents,
file existence (`fileExists: string -> bool`), the parsed `config.json`,
the workspace folder and the output of `javap`. A missing file or a failed
subprocess is `None`.

The model follows the code where it does less than its own parameter
names and comments, or than the SMAP format of JSR-45, "Debugging Support for Other
Languages", describes:
- `parseSmapContent` ignores its `jspFileName` parameter
  (src/jspMapper.ts:190). Any `+ id name` entry with two parts, or any
  file-section line mentioning `.jsp`, opens the line section for every
  record, whatever file it names.
- In JSR-45 a LineInfo record is `InputStartLine#LineFileID,RepeatCount:OutputStartLine,OutputLineIncrement`.
  The code's `a#f:c[,n]` form (src/jspMapper.ts:284-296) reads the last
  number as a repeat count with servlet increment 1, not as an increment.
  It is kept when its id is the last declared id, or when no id was
  declared. The JSR-45 form `a#f,b:c` is not recognised.
- An annotation comment maps JSP line N to the 1-based number of the
  comment line itself (`servletLineNumber + 1`, src/jspMapper.ts:1047), not
  to the statement after it.
- The comments at src/jspMapper.ts:383-384 and 410-411 speak of SMAP
  ranges, but a table is a map of single lines. The reverse exact match is
  not clamped to 1, so a key 0 from a `0:5` record comes back as 0. The
  range walk cannot produce a value below 1, so its clamp never binds.
- `findMappedLine` answers nothing whenever no key lies at or below the
  queried line, even if keys above it exist (src/jspMapper.ts:853-863).
- Without a `_jspService` method, the heuristic table has a single entry:
  JSP line 1 goes to `min(50, floor(lines / 5))`. It has no
  constant-offset continuation.

## Model

| member | source | states |
|---|---|---|
| LineTables.Set | src/jspMapper.ts:273 | `Map.set`: the key then maps to the value. Every other key keeps its presence and value. A new key goes to the end of the iteration order; an existing key keeps its place. |
| LineTables.SetWellFormed | src/jspMapper.ts:273 | Setting a key keeps every key listed once in the iteration order and the order in step with the contents. |
| LineTables.SetNewKey | src/jspMapper.ts:1284 | Setting an absent key grows the table by exactly one entry. |
| LineTables.Entries | src/jspMapper.ts:826 | `entries()` yields one pair per key, in insertion order, each with its stored value. |
| LineTables.EntriesComplete | src/jspMapper.ts:826 | A key is in the table exactly when `entries()` yields it, and then it yields it with its value. |
| LineTables.EntriesDistinct | src/jspMapper.ts:390 | `entries()` never yields the same key twice. |
| LineTables.Below | src/jspMapper.ts:827-830 | The greatest key at most `q` is one of the entries and lies at or below `q`. No other entry at or below `q` is greater. It is absent exactly when every key exceeds `q`. |
| LineTables.Above | src/jspMapper.ts:832-835 | The least key at least `q`, with the mirror-image guarantees. |
| LineTables.SortBy | src/jspMapper.ts:396 | The sort returns a permutation (same multiset) of its input, ordered by servlet line, or by JSP line. |
| LineTables.SortStable | src/jspMapper.ts:396 | The sort is stable: entries with equal sort key keep their relative order. |
| LineTables.SortByDistinct | src/jspMapper.ts:1263 | Sorting keeps the keys distinct. |
| LineTables.Insert | src/jspMapper.ts:396 | One insertion step of the sort adds exactly the new entry to the multiset. |
| LineTables.InsertSorted | src/jspMapper.ts:396 | Inserting into a sorted sequence keeps it sorted. |
| Text.Split | src/jspMapper.ts:879 | `split('\n')` gives at least one piece, and no piece contains the separator. |
| Text.JoinSplit | src/jspMapper.ts:879 | Joining the pieces of a split with the separator gives the text back. |
| Text.SplitJoin | src/configurationManager.ts:201-203 | Splitting a join of separator-free pieces gives the pieces back. |
| Text.Trim | src/jspMapper.ts:202 | `trim()` is the text between the leading and the trailing white space, and neither end of it is white space. |
| Text.TrimIdempotent | src/jspMapper.ts:202 | Trimming twice is trimming once. |
| Text.TrimDropsCarriageReturn | src/jspMapper.ts:195-202 | A trailing `\r` vanishes in the trim, so splitting on `\r?\n` and on `\n` agree once each piece is trimmed. |
| Text.IndexOf | src/jspMapper.ts:166 | `indexOf(pat, from)` is the first occurrence at or after `from`. It is -1 exactly when there is none. |
| Text.ContainsIndexOf | src/jspMapper.ts:245 | `includes` holds exactly when `indexOf` finds the pattern. |
| Text.LastIndexOf | src/jspMapper.ts:791 | The last occurrence of a character before a bound, or -1 when there is none. |
| Text.ReplaceChar | src/configurationManager.ts:121-124 | A global one-character `replace` keeps the length, replaces each occurrence and leaves every other character. |
| Text.ReplaceFirst | src/configurationManager.ts:217 | A string `replace` replaces only the first occurrence. Without one, the text is unchanged. |
| Text.Basename | src/jspMapper.ts:145 | `path.basename` is a suffix of the path and contains no `/`. It is the whole path, or the character before it is a `/`, so it is everything after the last `/`. |
| Text.Lower | src/configurationManager.ts:165 | `toLowerCase` keeps the length. |
| Text.NatToStringRoundTrip | src/jspMapper.ts:262 | `parseInt` of the decimal form of `n` is `n`. |
| Smap.ParseFormatLineInfo | src/jspMapper.ts:260-265 | Reading a written `a[,b]:c[,d]` record gives back all four parts, absent optional counts staying absent. |
| Smap.ParseFormatFileLineInfo | src/jspMapper.ts:285-290 | Reading a written `a#f:c[,n]` record with a digit id gives back its parts. |
| Smap.RecordFormsDisjoint | src/jspMapper.ts:260-286 | No line matches both record forms. |
| Smap.DigitRun | src/jspMapper.ts:260 | `\d*` takes the longest run of leading digits. |
| Smap.Number | src/jspMapper.ts:260-262 | `(\d+)` with `parseInt`: a non-empty digit run, its value and the rest of the text. |
| Smap.ApplyRangeKeys | src/jspMapper.ts:270-274 | A record `a,b:c,d` adds exactly the JSP lines `a .. a+b-1` to the keys already present. |
| Smap.ApplyRangeInside | src/jspMapper.ts:270-274 | After the record, JSP line `a+j` maps to servlet line `c+j*d` for every `j < b`. |
| Smap.ApplyRangeOutside | src/jspMapper.ts:270-274 | JSP lines outside the record's range keep their value. |
| Smap.LaterRecordWins | src/jspMapper.ts:260-281 | A later record for the same JSP line overwrites an earlier one. |
| Smap.RangeExamples | src/jspMapper.ts:255-258 | `7,52:128` and then `124,4:246,3` send JSP 9 to 130 and JSP 126 to 252. |
| Smap.ApplyRangeLoop | src/jspMapper.ts:270-278 | The `for` loop builds exactly the record's range application. |
| Smap.ApplyRecord | src/jspMapper.ts:260-298 | A range record applies. Otherwise a `#` record applies when its id is the last declared one or none was declared. Anything else changes nothing. |
| Smap.ReadLine | src/jspMapper.ts:201-232 | One pass of the loop equals `Step`. Blank lines are skipped. `*F` and `*L` open their sections. Any other line starting with `*` closes both. |
| Smap.ReadBodyLine | src/jspMapper.ts:234-299 | The rest of the loop body handles the file entry first, then the record. |
| Smap.ParseSmapContent | src/jspMapper.ts:190-312 | `parseSmapContent` returns exactly the table the line-by-line parser builds, stopping at `*E*`. The JSP file name has no influence. |
| Smap.StepIgnoresCarriageReturn | src/jspMapper.ts:195-202 | A trailing `\r` on a line changes neither its effect nor whether it ends the parse. |
| Smap.NoLineSectionNoMapping | src/jspMapper.ts:216-221 | Without a line that trims to `*L`, no record is applied. |
| Smap.NoFileEntryNoMapping | src/jspMapper.ts:235-252 | Without a `+` entry or a file line mentioning `.jsp`, no record is applied. |
| Smap.EndStopsParsing | src/jspMapper.ts:229-232 | Lines after the first `*E*` have no effect. |
| Smap.OtherFileIgnored | src/jspMapper.ts:292-297 | A `#` record whose id differs from the declared one is ignored. |
| Smap.StepRecord | src/jspMapper.ts:252-261 | Inside `*L` after a file entry, a trimmed line starting with a digit is handled as a record. |
| Smap.StepFormatted | src/jspMapper.ts:252-281 | Inside `*L` after a file entry, a written record is applied and does not end the parse. |
| Smap.RunTwoRecords | src/jspMapper.ts:201-300 | Two written records in a row are applied in order. |
| Smap.SmapTableWellFormed | src/jspMapper.ts:190-312 | For any text, the parsed table lists each JSP line once, in insertion order. |
| Smap.Latin1 | src/jspMapper.ts:163 | `toString('latin1')` gives one character per byte, carrying the byte's code. |
| Smap.FindSmapInClassFile | src/jspMapper.ts:160-185 | The result is null exactly when `SMAP` is absent or no `*E*` follows its first occurrence. Otherwise it is the text at the first `SMAP`, starting with `SMAP` and ending with the first `*E*` after it, which is the only `*E*` inside. |
| Smap.FindSmapCoversMarkers | src/jspMapper.ts:166-178 | The `*E*` found lies past the four header letters, so the blob holds both markers whole. |
| Smap.NoEarlierEnd | src/jspMapper.ts:172-178 | The cut-out blob contains no earlier `*E*`. |
| Smap.LastNewline | src/jspMapper.ts:791 | Where greedy `\s*` hands over to `\n`: the last line break in the white space. |
| Smap.SectionEnd | src/jspMapper.ts:791 | The lazy `[\s\S]*?` stops at the first index where the look-ahead `(?=\n\S\|\n*$)` holds. |
| Smap.SourceDebugSection | src/jspMapper.ts:791 | The captured section never holds a line break followed by a non-space character. |
| Resolve.RoundHalfUp | src/jspMapper.ts:845 | `Math.round(num / den)` on exact rationals is the integer `r` with `r - 1/2 <= num/den < r + 1/2`. |
| Resolve.RoundWithin | src/jspMapper.ts:845 | Rounding a ratio that lies between two integers stays between them. |
| Resolve.FindMappedLine | src/jspMapper.ts:812-863 | `findMappedLine`'s loop returns exactly `Forward(t, q)`. Interpolation is on exact rationals (see Left out). |
| Resolve.ClosestEntries | src/jspMapper.ts:821-836 | The loop over `entries()` finds the greatest key at most `q` and the least key at least `q`. |
| Resolve.ForwardNone | src/jspMapper.ts:854-862 | The result is null exactly when every key is above `q`. |
| Resolve.ForwardInterpolates | src/jspMapper.ts:839-851 | For `q` strictly between adjacent keys `p` and `n`, the result is `map[p] + round((q-p)*(map[n]-map[p])/(n-p))`, between `map[p]` and `map[n]`. Rounding is on exact rationals (see Left out). |
| Resolve.ForwardExtrapolates | src/jspMapper.ts:854-859 | For `q` above every key, with `p` the greatest key, the result is `map[p] + (q - p)`. |
| Resolve.InterpolationBetween | src/jspMapper.ts:844-845 | An interpolated line lies between the servlet lines of its two neighbours. |
| Resolve.BelowIs | src/jspMapper.ts:827-830 | The search picks the greatest key at most `q`, with its stored value. |
| Resolve.AboveIs | src/jspMapper.ts:832-835 | The search picks the least key at least `q`, with its stored value. |
| Resolve.ForwardNonNegative | src/jspMapper.ts:812-863 | A resolved servlet line is never negative. |
| ReverseLookup.FindReverseMappedLine | src/jspMapper.ts:378-447 | `findReverseMappedLine` returns exactly `Reverse(t, g)`. |
| ReverseLookup.ScanRanges | src/jspMapper.ts:414-439 | The range loop returns exactly the walk `Walk` over the sorted entries. |
| ReverseLookup.ReverseTableHas | src/jspMapper.ts:390-393 | A servlet line is in the reverse map exactly when some entry carries it. |
| ReverseLookup.ReverseTableGet | src/jspMapper.ts:390-393 | The reverse map keeps the JSP line of the last entry carrying that servlet line. |
| ReverseLookup.ReverseExact | src/jspMapper.ts:404-408 | An exact hit returns the JSP line of the last entry with that servlet line. |
| ReverseLookup.ReverseNone | src/jspMapper.ts:441-446 | The result is null exactly when every servlet line is above `g`, which includes the empty table. |
| ReverseLookup.ReverseRange | src/jspMapper.ts:414-443 | Without an exact hit, take the entry with the greatest servlet line below `g`. The result is its JSP line plus `g` minus its servlet line, and it is at least 1. |
| ReverseLookup.WalkPicksLast | src/jspMapper.ts:396-437 | On the stable sort, the walk stops at that entry. |
| ReverseLookup.WalkFinds | src/jspMapper.ts:416-437 | The walk returns the offset from the entry whose `[current, next)` range holds `g`, or from the last entry. |
| ReverseLookup.WalkNone | src/jspMapper.ts:429-446 | The walk finds nothing when every remaining servlet line is above `g`. |
| ReverseLookup.LastAtMost | src/jspMapper.ts:416-437 | The position of the last sorted entry at or below `g`. |
| Enhance.GapValue | src/jspMapper.ts:1277-1281 | `round(servletStart + j * servletGap / jspGap)` lies between the servlet lines of the gap's two ends. |
| Enhance.GapNumeratorBounds | src/jspMapper.ts:1281 | The exact numerator of that value lies between the two ends scaled by the JSP gap. |
| Enhance.EnhanceLineMappings | src/jspMapper.ts:1259-1291 | `enhanceLineMappings` returns exactly `Enhanced(t)`. Gap values are rounded on exact rationals (see Left out). |
| Enhance.FillGap | src/jspMapper.ts:1276-1287 | The inner loop returns exactly one gap's filling. |
| Enhance.GapStepSpec | src/jspMapper.ts:1276-1287 | Filling a gap adds exactly the JSP lines strictly inside a gap of width 2 to 20 with a positive servlet gap. Lines already present keep their value; each new line gets the rounded interpolation. |
| Enhance.EnhancedKeeps | src/jspMapper.ts:1260-1285 | Every original entry stays, with its value: nothing is overwritten. |
| Enhance.EnhancedAgreesWithForward | src/jspMapper.ts:1260-1290 | The result holds exactly the original lines and the lines whose closest original neighbours form such a gap. Each of its values is what `findMappedLine` computes on the original table. Both sides are rounded on exact rationals (see Left out). |
| Enhance.EnhancedLines | src/jspMapper.ts:1263-1288 | Its keys are the original keys and the lines inside the gaps between consecutive sorted pairs that the loop fills. |
| Enhance.EnhancedGap | src/jspMapper.ts:1268-1286 | An added line's value is the interpolation inside its gap. |
| Enhance.BridgedIffFilled | src/jspMapper.ts:1263-1276 | A line lies in a filled gap between consecutive sorted pairs exactly when its closest original neighbours are close enough. |
| Enhance.EnhancedWellFormed | src/jspMapper.ts:1260-1290 | The result lists each JSP line once. |
| Enhance.GapValueInterpolates | src/jspMapper.ts:1281 | The value filled in equals `findMappedLine`'s interpolation between the same two entries. Both sides are rounded on exact rationals (see Left out). |
| Heuristic.FirstService | src/jspMapper.ts:1306-1311 | The first line that, once trimmed, contains `_jspService` and `(`. No earlier line does. |
| Heuristic.ServiceEnd | src/jspMapper.ts:1315-1325 | The first line after the start where the running brace count returns to zero. |
| Heuristic.Estimated | src/jspMapper.ts:1342 | `max(1, floor(methodLines / 3))` is at least 1, and above 1 only for methods of six lines or more. |
| Heuristic.CreateHeuristicMapping | src/jspMapper.ts:1296-1354 | `createHeuristicMapping` returns exactly `HeuristicMapping` of the servlet's lines. |
| Heuristic.FindServiceMethod | src/jspMapper.ts:1303-1328 | The search loop finds the first service line and the end of its method, or -1. |
| Heuristic.FindServiceEnd | src/jspMapper.ts:1315-1325 | The brace-counting loop finds the closing line, or -1. |
| Heuristic.LinearMapping | src/jspMapper.ts:1345-1349 | The spreading loop builds exactly `LinearTo`. |
| Heuristic.LinearToSpec | src/jspMapper.ts:1345-1349 | The spread holds exactly JSP lines `1 .. e`, each with its spread servlet line. |
| Heuristic.ServletLineSpread | src/jspMapper.ts:1346-1347 | JSP line 1 goes to the line after the start and JSP line `e` to the line after the end. Servlet lines never decrease with JSP lines. |
| Heuristic.HeuristicWithoutService | src/jspMapper.ts:1330-1336 | Without a service method, the table holds only JSP line 1, at `min(50, floor(lines / 5))`. |
| Heuristic.HeuristicSpread | src/jspMapper.ts:1341-1349 | With a closed service method, JSP lines `1 .. e` map between the lines after its start and after its end, non-decreasing. The last one maps to the line after the end. |
| Heuristic.LinearSpread | src/jspMapper.ts:1341-1349 | The same on the spread of a method of `m >= 1` lines. |
| Heuristic.HeuristicUnclosed | src/jspMapper.ts:1303-1349 | With an unclosed service method, the table holds only JSP line 1, at the line after the start. |
| Heuristic.HeuristicWellFormed | src/jspMapper.ts:1296-1354 | The heuristic table is never empty and lists each JSP line once. |
| Annotations.LineCommentAt | src/jspMapper.ts:1040 | A `//line N "name"` match captures a name without `"` that ends in `.jsp`, in any case. |
| Annotations.LineCommentAtReads | src/jspMapper.ts:1040 | A written `//line N "x.jsp"` is read back as `N` and `x.jsp` at its position. |
| Annotations.Pattern1Reads | src/jspMapper.ts:1040 | After leading white space, pattern 1 reads the written comment back. |
| Annotations.FallbackReads | src/jspMapper.ts:891 | The unanchored search of the `.java` fallback finds it too. |
| Annotations.AnnotateLineComment | src/jspMapper.ts:1040-1052 | Such a line annotates JSP line `N` when no target is given or the name contains the target's basename. Otherwise it annotates nothing, and later patterns are not tried. |
| Annotations.Pattern2 | src/jspMapper.ts:1055 | A `// Line N, JSP file: name` match captures a name ending in `.jsp`. |
| Annotations.JspFileCommentLaidOut | src/jspMapper.ts:1055 | A written `// Line N, JSP file: x.jsp` comment has the layout pattern 2 expects. |
| Annotations.Pattern2Layout | src/jspMapper.ts:1055-1059 | Pattern 2 reads such a layout back as `N` and the name. |
| Annotations.Pattern3 | src/jspMapper.ts:1069 | A `/* Line N, file: name */` match captures a name ending in `.jsp`. |
| Annotations.LeftmostNone | src/jspMapper.ts:1083 | An unanchored match fails exactly when it fails at every start. |
| Annotations.LastLineRef | src/jspMapper.ts:1083 | The greedy `.*` backs off to the last `line\s*\d` in its range. |
| LineMapping.ParseLineMapping | src/jspMapper.ts:1021-1114 | `parseLineMapping` returns exactly `LineMapping(servletContent, target, smapMappings)`. |
| LineMapping.ScanAnnotations | src/jspMapper.ts:1035-1091 | The `forEach` builds exactly the comment table and the count of accepted annotations. |
| LineMapping.CommentTableHas | src/jspMapper.ts:1035-1091 | A JSP line is in the comment table exactly when some line annotates it. |
| LineMapping.CommentTableLast | src/jspMapper.ts:1047 | A JSP line maps to the 1-based number of the last line annotating it. |
| LineMapping.CommentTableWellFormed | src/jspMapper.ts:1035-1091 | The comment table lists each JSP line once. |
| LineMapping.CommentCountPositive | src/jspMapper.ts:1096 | The count is positive exactly when some line is an accepted annotation. |
| LineMapping.CommentsDecide | src/jspMapper.ts:1040-1100 | In the result, an annotated JSP line maps to the line of its last annotation. |
| LineMapping.CommentsInterpolate | src/jspMapper.ts:1096-1100 | With annotations, the result holds the annotated lines and those bridged between close ones. Each value is what `findMappedLine` gives on the comment table. Both sides are rounded on exact rationals (see Left out). |
| LineMapping.NoComments | src/jspMapper.ts:1105-1113 | Without annotations, a non-empty SMAP table is returned as it is, otherwise the heuristic table. |
| LineMapping.LineMappingNonEmpty | src/jspMapper.ts:1021-1114 | `parseLineMapping` never returns an empty table. |
| Tiers.FallbackToJavaSourceMapping | src/jspMapper.ts:868-913 | The method returns exactly `FallbackForward`. |
| Tiers.FallbackForwardComment | src/jspMapper.ts:886-903 | The `.java` line of the last comment naming JSP line `q` wins. |
| Tiers.FallbackForwardEstimate | src/jspMapper.ts:905-907 | Without such a comment, the result is `max(50, 3q)`, at least 50. |
| Tiers.FallbackReverseMapping | src/jspMapper.ts:452-509 | The method returns exactly `FallbackReverse`. |
| Tiers.FallbackReverseSpec | src/jspMapper.ts:466-503 | The result is the JSP line of the last commented `.java` line at or before `g`, or null when there is none. |
| Tiers.ReverseCommentTableSpec | src/jspMapper.ts:468-478 | Servlet line `g` is in the reverse comment table exactly when line `g` carries a comment, and it maps to that comment's JSP line. |
| Tiers.ReverseCommentTableWellFormed | src/jspMapper.ts:466-478 | The reverse comment table lists each servlet line once. |
| Tiers.ReverseTableLookupSpec | src/jspMapper.ts:480-503 | An exact hit, else the closest entry below, is the last commented line at or before `g`. |
| Tiers.ClosestBelow | src/jspMapper.ts:487-495 | The loop finds the entry with the greatest servlet line at or below `g`. |
| Tiers.LastAnnotatedBefore | src/jspMapper.ts:487-495 | Reference definition: the last commented line below a bound. No line between it and the bound is commented. |
| Tiers.ExtractSmapFromClassFile | src/jspMapper.ts:128-155 | The method returns exactly the SMAP table of the class file's bytes, empty without one. |
| Tiers.ExtractSmapUsingJavap | src/jspMapper.ts:738-767 | The method returns the table of `javap`'s section, or the class-file table when `javap` failed. |
| Tiers.MapJspLineToServletLine | src/jspMapper.ts:694-733 | The method returns exactly `JspToServlet`. |
| Tiers.MapServletLineToJspLine | src/jspMapper.ts:338-373 | The method returns exactly `ServletToJsp`. |
| Tiers.TiersShareTable | src/jspMapper.ts:343-373 | Both directions use the same chosen table: when one exists it is well formed and non-empty, and the forward and reverse lookups read it; otherwise both fall back to the `.java` file. An empty `javap` table counts as no `javap` output at all. |
| Tiers.JspToServletGivesUp | src/jspMapper.ts:700-733 | With a class file, the forward chain answers null exactly in two cases. Either every key of the chosen table is above `q`, or no table was found and there is no `.java` file. |
| Tiers.ServletToJspGivesUp | src/jspMapper.ts:343-373 | The reverse chain answers null exactly in two cases. Either every servlet line of the chosen table is above `g`, or without a table there is no `.java` file or no comment at or before `g`. |
| Tiers.ClassFileTableWellFormed | src/jspMapper.ts:128-155 | The class-file table lists each JSP line once. |
| Tiers.JavapTableWellFormed | src/jspMapper.ts:772-807 | The `javap` table lists each JSP line once. |
| Config.LoadConfiguration | src/configurationManager.ts:27-67 | A configuration loads exactly when the file parsed, `catalinaHome` is set and it exists. `catalinaBase` then defaults to `catalinaHome`, so both are set. |
| Config.ConfigurationManager.constructor | src/configurationManager.ts:15 | No configuration is cached at first. |
| Config.ConfigurationManager.GetConfiguration | src/configurationManager.ts:72-74 | A cached configuration is returned unchanged. Otherwise the freshly loaded one is returned and cached. |
| Config.CompiledServletDirectoryLayout | src/configurationManager.ts:97-114 | The directory is `base/work/Catalina/localhost/<ctx>/org/apache/jsp`. `base` is `catalinaBase`, else `catalinaHome`. `ctx` is the argument, else `webappContext`, else `ROOT`. |
| Config.DirectoryNotEmpty | src/configurationManager.ts:104-113 | The directory is never the empty path. |
| Config.ServletClassNameShape | src/configurationManager.ts:119-127 | The class name is `org.apache.jsp.` followed by the path without one leading separator, each character rewritten. The part after the prefix has no `/`, `\` or `.`. |
| Config.ClassNameOf | src/configurationManager.ts:119-127 | A relative path whose characters rewrite to a suffix gets exactly that class name. |
| Config.IndexClassName | src/test/extension.test.ts:26-27 | `index.jsp` becomes `org.apache.jsp.index_jsp`. |
| Config.NestedClassName | src/test/extension.test.ts:29-30 | `admin/login.jsp` becomes `org.apache.jsp.admin_login_jsp`. |
| Config.FindCompiledServletClass | src/configurationManager.ts:133-230 | The method returns exactly `CompiledServletClass` under the source's own (`AsWritten`) directory detection, with configured paths taken as written. |
| Config.DetectWebappDir | src/configurationManager.ts:177-192 | The detection loop as written: the first directory `d` in the list that the path `startsWith` has `|d|+1` characters cut, else the path is kept. |
| Config.StripWebappDirKnown | src/configurationManager.ts:177-186 | Corrected detection: under any of the four web-content directories `d`, `d/rest` becomes `rest`. |
| Config.StripWebappDirOther | src/configurationManager.ts:189-192 | Corrected detection: under no known directory as a whole segment, the path is used as it is. |
| Config.StripWebappDirAsWrittenOther | src/configurationManager.ts:189-192 | As written: when the path starts with none of the four names, it is used as it is. |
| Config.StripWebappDirAsWrittenKnown | src/configurationManager.ts:180-186 | As written: under `src/main/webapp`, `WebContent` or `web`, `d/rest` becomes `rest`. |
| Config.WebsiteLosesWeb | src/configurationManager.ts:180-186 | As written, `website/rest` becomes `ite/rest`. Corrected, it is kept. |
| Config.WebShadowsWebapp | src/configurationManager.ts:180-186 | As written, `webapp/rest` becomes `pp/rest`. Corrected, it becomes `rest`. |
| Config.UnderWebappDir | src/configurationManager.ts:172-192 | Without `jspSourceRoot`, a JSP under `workspace/d/` has its path below `d` as relative path: as written for `src/main/webapp`, `WebContent` and `web`, corrected for all four directories. |
| Config.UnderWebappAsWritten | src/configurationManager.ts:172-192 | As written, a JSP under `workspace/webapp/` gets `pp/` before its path below `webapp`. |
| Config.UnderSourceRoot | src/configurationManager.ts:160-171 | With `jspSourceRoot`, a JSP under it has its path below the root as relative path, whichever detection. |
| Config.OutsideSourceRoot | src/configurationManager.ts:160-168 | With `jspSourceRoot`, a JSP not under it (compared case-insensitively) has no class file, whichever detection. |
| Config.ClassFilePathLayout | src/configurationManager.ts:196-207 | The class file keeps the directory segments under the servlet directory and turns `name.jsp` into `name_jsp.class`. |
| Config.ClassFileOfPartsLayout | src/configurationManager.ts:201-207 | The same on the split segments, with or without directories. |
| Config.ClassOfRelative | src/configurationManager.ts:196-223 | For a relative path `dirs/stem.jsp`, whichever detection, the result is the class path when the class file or, failing that, the `.java` file exists, otherwise null. |
| Config.FindsClassUnderWebappDir | src/configurationManager.ts:133-223 | End to end without `jspSourceRoot`: a JSP under a known directory finds `servletDir/dirs/stem_jsp.class` under that condition; as written for `src/main/webapp`, `WebContent` and `web`, corrected for all four. |
| Config.FindsClassUnderWebappAsWritten | src/configurationManager.ts:133-223 | As written, a JSP under `workspace/webapp/` is looked up at `servletDir/pp/dirs/stem_jsp.class`. |
| Config.FindsClassUnderSourceRoot | src/configurationManager.ts:133-223 | End to end with `jspSourceRoot`, the same, whichever detection. |
| JspFiles.IsJspFileLetters | src/jspMapper.ts:41-43 | `isJspFile` holds exactly when the path ends in `.jsp` or `.jspx`, each letter in either case. |
| JspFiles.FirstExisting | src/jspMapper.ts:95-105 | A returned candidate exists. |
| JspFiles.FirstExistingSpec | src/jspMapper.ts:95-107 | The search returns the earliest existing candidate, or null exactly when none exists. |
| JspFiles.GetJspFileFromServletClass | src/jspMapper.ts:72-108 | The method returns exactly `JspFileFromServletClass`. |
| JspFiles.ClassNameRoundTrip | src/jspMapper.ts:73-87 | From the class name of `stem.jsp` (`jspPathToServletClassName`), the rewrite gives back `stem.jsp` with every `_` turned into `/`. So the path comes back exactly when the stem has no `_`. |
| JspFiles.JspPathOfJspClass | src/jspMapper.ts:73-87 | `org.apache.jsp.x_jsp` gives `x.jsp` with `_` turned into `/`. |
| JspFiles.ForeignClassHasNoJsp | src/jspMapper.ts:74-76 | A class outside `org.apache.jsp` has no JSP. |
| Breakpoints.FirstCommentFor | src/breakpointManager.ts:136-146 | The first line whose `// Line N, JSP file:` comment names the JSP line. No earlier line does. |
| Breakpoints.MappedServletLine | src/breakpointManager.ts:126-155 | The result is null exactly when the servlet file is missing. For a JSP line of at least 1, the result is at least 1. |
| Breakpoints.MapJspLineToServletLine | src/breakpointManager.ts:126-155 | The scan returns the first matching comment's 1-based line, else the JSP line itself. |
| Breakpoints.JspLineCommentLayout | src/breakpointManager.ts:138-141 | A `// Line N, JSP file:` comment is read back as `N`. |
| Breakpoints.NoSlashNoComment | src/breakpointManager.ts:138 | A line without `/` names no JSP line. |
| Breakpoints.Splice | src/breakpointManager.ts:109 | `splice(i, 1)` removes exactly the element at `i`, keeping the others in order. |
| Breakpoints.IndexOfBreakpoint | src/breakpointManager.ts:106 | `indexOf` is the first position of the breakpoint, or -1 exactly when it is absent. |
| Breakpoints.FirstLonger | src/breakpointManager.ts:112-119 | The first servlet file, in map order, whose list has more than `i` entries. No such file means every list is shorter. |
| Breakpoints.BreakpointManager.constructor | src/breakpointManager.ts:11-12 | Both maps start empty. |
| Breakpoints.BreakpointManager.AddJspBreakpoint | src/breakpointManager.ts:48-96 | The new state is `Added(old state)`. The JSP line goes 0-based to 1-based for the mapping, and the servlet line comes back 0-based. |
| Breakpoints.BreakpointManager.PushJspBreakpoint | src/breakpointManager.ts:80-83 | The breakpoint joins its file's list, which is created empty on first use. The servlet map is unchanged. |
| Breakpoints.BreakpointManager.PushServletBreakpoint | src/breakpointManager.ts:85-88 | The servlet breakpoint joins its file's list. A new file goes to the end of the map's order. |
| Breakpoints.BreakpointManager.RemoveJspBreakpointAsWritten | src/breakpointManager.ts:101-121 | The new state is `RemovedAsWritten(old state)`, the removal as the source writes it. |
| Breakpoints.BreakpointManager.RemoveJspBreakpoint | src/breakpointManager.ts:101-121 | The new state is `Removed(old state)`, the corrected removal from the paired servlet list. |
| Breakpoints.BreakpointManager.HandleBreakpointChange | src/breakpointManager.ts:29-43 | The new state is `ChangedAsWritten(old state)`: all additions, then all removals as the source writes them, of `.jsp` source breakpoints. |
| Breakpoints.BreakpointManager.GetJspBreakpoints | src/breakpointManager.ts:160-162 | Returns the file's list, or the empty list. |
| Breakpoints.BreakpointManager.GetServletBreakpoints | src/breakpointManager.ts:167-169 | Returns the servlet file's list, or the empty list. |
| Breakpoints.AddedNothing | src/breakpointManager.ts:53-68 | Adding changes nothing exactly when there is no servlet file or its content is missing. |
| Breakpoints.AddedAtComment | src/breakpointManager.ts:50-88 | With a comment for JSP line `line+1` at servlet line `i`, the JSP breakpoint is appended to its list and a servlet breakpoint at 0-based line `i` is appended to the servlet's list. Every other list is unchanged. |
| Breakpoints.AddedWithoutComment | src/breakpointManager.ts:148-149 | Without such a comment, the servlet breakpoint lands on the JSP breakpoint's own 0-based line. |
| Breakpoints.AddedShape | src/breakpointManager.ts:74-88 | A mapped line appends to both lists and registers a new servlet file at the end of the order. |
| Breakpoints.AddedKeepsOrder | src/breakpointManager.ts:85-88 | The servlet map's order keeps listing each key once. |
| Breakpoints.AddedKeepsPaired | src/breakpointManager.ts:48-96 | Adding keeps the JSP and servlet lists parallel. |
| Breakpoints.RemovedKeepsPaired | src/breakpointManager.ts:101-121 | The corrected removal keeps them parallel. |
| Breakpoints.AddedAllKeepsPaired | src/breakpointManager.ts:31-35 | The additions loop keeps them parallel. |
| Breakpoints.RemovedAllKeepsPaired | src/breakpointManager.ts:38-42 | The removals loop with the corrected removal keeps them parallel. |
| Breakpoints.ChangedKeepsPaired | src/breakpointManager.ts:29-43 | `handleBreakpointChange` with the corrected removal keeps them parallel. |
| Breakpoints.AddedThenRemoved | src/breakpointManager.ts:48-121 | Adding a new breakpoint and then removing it with the corrected removal gives back every list as it was. |
| Breakpoints.RemovedUndoesPush | src/breakpointManager.ts:105-119 | The corrected removal of the breakpoint just pushed takes both pushed elements off again. |
| Breakpoints.AsWrittenAgreesIff | src/breakpointManager.ts:112-119 | The as-written removal equals the corrected one exactly when the first long-enough servlet list is the paired one. |
| Breakpoints.AsWrittenBreaksPairing | src/breakpointManager.ts:112-119 | Otherwise the as-written removal leaves the lists no longer parallel. |
| Breakpoints.AsWrittenExample | src/breakpointManager.ts:112-119 | Take `a.jsp` and `b.jsp` with one breakpoint each, on `A.java` and `B.java`. Removing `b.jsp`'s breakpoint as written empties `A.java`'s list. Corrected, it empties `B.java`'s. |
| Breakpoints.AddedAllKeepsOrder | src/breakpointManager.ts:85-88 | The additions loop keeps the servlet map's order listing each key once. |
| Breakpoints.RemovedKeepsOrder | src/breakpointManager.ts:112-119 | The corrected removal keeps the servlet keys and their order. |
| Breakpoints.RemovedAllAgrees | src/breakpointManager.ts:38-42 | When at every removal the first long-enough servlet list is the JSP file's own, the removals loop as written equals the corrected one and keeps the lists parallel. |
| Breakpoints.ChangedAsWrittenAgrees | src/breakpointManager.ts:29-43 | Under the same condition, `handleBreakpointChange` as written equals the corrected handler and keeps the lists parallel. |
| Breakpoints.DivergedRunsReconverge | src/breakpointManager.ts:112-119 | The condition is not necessary: removing `b.jsp`'s and then `a.jsp`'s breakpoint in the two-file example takes the wrong list first, yet both handlers end in the same state. |
| Breakpoints.ChangedAsWrittenBreaksPairing | src/breakpointManager.ts:29-43 | In the two-file example, the handler as written, removing `b.jsp`'s breakpoint, leaves the lists no longer parallel. |
| Breakpoints.AddedThenRemovedAsWritten | src/breakpointManager.ts:48-121 | As written, adding a new breakpoint and removing it gives every list back when no servlet list before the JSP file's own is long enough for its index. |
| Breakpoints.AddedThenRemovedAsWrittenFails | src/breakpointManager.ts:48-121 | Without that condition it fails: adding `b.jsp`'s breakpoint beside `a.jsp`'s and removing it as written empties `A.java`'s list. |
| Breakpoints.ChangedOthers | src/breakpointManager.ts:31-42 | Breakpoints that are not `.jsp` source breakpoints change nothing, in the handler as written and corrected. |
| Breakpoints.UpperCaseSuffixIgnored | src/breakpointManager.ts:32 | The `.jsp` filter is case-sensitive: a `.JSP` path is ignored. |

## Left out

- Floating-point arithmetic is exact here. `Math.round(x)` is `floor(x + 1/2)` on rationals (`Resolve.RoundHalfUp`), `Math.floor(n * 0.2)` is `n / 5`, and `Math.floor(ratio * methodLines)` is an integer quotient. The last two agree with doubles for line counts. The first does not when the exact value is a half: the double product can fall just below it and round down.
- Resolve.FindMappedLine: when the exact interpolation is a half, the model can be one line above the program. `ratio * servletRange` is a double. With table {10→100, 20→145} and query 17, `0.7 * 45` is `31.499999999999996`, so the program gives 131 and the model 132. Elsewhere the two agree for line numbers of realistic size.
- Resolve.ForwardInterpolates: its value `map[p] + round(exact)` is, at exact halves, one above what the program computes (the example of `Resolve.FindMappedLine`).
- Enhance.EnhanceLineMappings: a filled gap value can be one above the program's at exact halves. With comment table {1→1, 15→62}, JSP line 8 gets `Math.round(1 + 7 * (61 / 14))` = `Math.round(31.499999999999996)` = 31 in the program and 32 in the model.
- Enhance.EnhancedAgreesWithForward: holds of the exact-rational model. In the program the enhanced value and `findMappedLine`'s value can differ by one at exact halves. On {1→1, 15→62} at line 8, `findMappedLine` gives `1 + Math.round(0.5 * 61)` = 32 while the enhanced table holds 31.
- Enhance.GapValueInterpolates: the equality with `findMappedLine`'s interpolation is exact-rational. The program's two double formulas can differ by one at exact halves (the example of `Enhance.EnhancedAgreesWithForward`).
- LineMapping.CommentsInterpolate: "each value is what `findMappedLine` gives" holds of the model. In the program the bridged values can be one below that at exact halves (the example of `Enhance.EnhancedAgreesWithForward`).
- `parseSmapData` (src/jspMapper.ts:1119-1231), the older SMAP parser that `parseLineMapping` falls back to, is not modelled. `LineMapping.ParseLineMapping` takes its table as the input `smapMappings`.
- The `javap -v` subprocess is an optional string: `None` when running it fails. The class-file bytes and the `.java` file's content are optional inputs as well.
- File existence and file contents (`fs.existsSync`, `readFileSync`), the workspace folder and the parsing of `config.json` are parameters. `createDefaultConfig` and `debugListServletDirectory` write or list files and are not modelled.
- `getServletSourceFilePath` and `getServletClassFilePath` only look files up; their result, the `.java` content, is an input of the tier chains.
- `path.join`, `path.relative` and `path.basename` work on `/`-separated text without normalisation: `path.join` only drops empty segments, and `path.relative` is a prefix test on the text. Windows drive letters, `..` segments and `\` separators in the workspace path are not modelled, and neither are `.` segments or doubled and trailing `/` inside a segment.
- Config.FindCompiledServletClass: a configured `jspSourceRoot`, `catalinaBase` or `catalinaHome` is used as written. A trailing or doubled `/` or a `.` segment in it is not normalised as `path.join` and `path.relative` do. For such a configuration the model's class path differs from the source's: with `src/main/webapp/` as root it keeps the whole JSP path, and with `./src/main/webapp` it answers null.
- `toLowerCase` and the `/i` flag fold ASCII letters only.
- `parseInt` on very long digit strings loses precision in JavaScript; here it is exact.
- Exceptions and `try`/`catch` are not modelled. Every modelled operation is total, so no catch branch is reachable in the model.
- Logging, `showWarningMessage`/`showErrorMessage`, and the `vscode.debug.addBreakpoints`/`removeBreakpoints` calls that mirror the bookkeeping into the editor are left out.
- A VS Code breakpoint object is identified by an id; `indexOf` compares those ids instead of object identity.
- The singletons (`getInstance`), `async`/`await` and the `mapJspToServlet`, `getServletClassName`, `validateServletExists` and `findJspFiles` wrappers are left out.
- `createDebugMappingFile`, `analyzeServletLineContext` and `debugServletFile` are diagnostics only.
- The unused private helpers repeat the greatest-key-below search of `findMappedLine`, which is modelled once (`LineTables.Below`). They are `findClosestMapping`, `findClosestReverseMapping`, `findPreviousMapping`, `findClosestLineMapping`, `estimateServletLine`, `findFirstJspCodeLine` and `buildExactMapping`.
- Annotations.Pattern3: only the shape of its result (a captured name ending in `.jsp`) is proved. No read-back lemma exists for a written `/* Line N, file: x.jsp */` comment, unlike patterns 1 and 2.
- Annotations.LastLineRef: the fourth, loose annotation pattern is modelled, but only where its greedy match stops is proved, not a read-back.
- Config.IndexClassName: the third class-name example, `pages/user/profile.jsp`, is covered by `Config.ServletClassNameShape` and not by a lemma on the literal.
- Text.Lower: only its length is stated; the ASCII case folding is its definition.
- Text.Basename: a path ending in `/` gives the empty name here, where `path.basename` first drops trailing separators.
- Breakpoints.RemovedAllKeepsPaired: stated of the corrected removal. The source's removals loop keeps the lists parallel only under `RemovalsAgree` (`Breakpoints.RemovedAllAgrees`); see Findings.
- Breakpoints.ChangedKeepsPaired: stated of the corrected handler. The handler as written keeps them parallel only under `RemovalsAgree` (`Breakpoints.ChangedAsWrittenAgrees`), and `Breakpoints.ChangedAsWrittenBreaksPairing` shows it can fail.
- Breakpoints.AddedThenRemoved: stated of the corrected removal. As written it holds only when no earlier servlet list is long enough (`Breakpoints.AddedThenRemovedAsWritten`, `Breakpoints.AddedThenRemovedAsWrittenFails`).
- Breakpoints.RemovedUndoesPush: stated of the corrected removal; the as-written removal may take the element off another servlet's list.
- Config.StripWebappDirOther: stated of the corrected detection. As written, a path is kept only when it starts with none of the names at all (`Config.StripWebappDirAsWrittenOther`), so `website/x` loses four characters (`Config.WebsiteLosesWeb`).
- Config.UnderWebappDir: the corrected half covers all four directories; as written only `src/main/webapp`, `WebContent` and `web`, since `webapp/x` becomes `pp/x` (`Config.UnderWebappAsWritten`).
- Config.FindsClassUnderWebappDir: as for `Config.UnderWebappDir`; as written, a JSP under `webapp/` is looked up below `pp/` (`Config.FindsClassUnderWebappAsWritten`).

## Findings

| source | as written | input that shows it | evidently intended | confidence | as-written member | corrected member |
|---|---|---|---|---|---|---|
| src/configurationManager.ts:180-186 | `startsWith(webappDir)` tests the directory name without a following separator. `web` is tried before `webapp`, so it matches `webapp/...` and the next 4 characters are cut; the same happens to any path starting with `web`, such as `website/x.jsp`, which gives `ite/x.jsp`. | workspace-relative path `webapp/index.jsp` gives `pp/index.jsp`, so the class file is looked up in the wrong place (`Config.FindsClassUnderWebappAsWritten`) | strip a directory only when it is the whole first segment: `webapp/index.jsp` gives `index.jsp` | not executed | Config.WebShadowsWebapp | Config.StripWebappDirKnown |
| src/breakpointManager.ts:112-119 | Index `i` is removed from the first servlet list, in map order, with more than `i` entries, not from the list of the JSP file's own servlet. | `a.jsp` and `b.jsp` each hold one breakpoint, mapped to `A.java` and `B.java`. Removing `b.jsp`'s breakpoint removes `A.java`'s servlet breakpoint and leaves `B.java`'s. | remove index `i` from the servlet list of the servlet that `addJspBreakpoint` pushed onto | not executed | Breakpoints.ChangedAsWrittenBreaksPairing | Breakpoints.ChangedKeepsPaired |
