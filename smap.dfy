/**
 * SMAP text (JSR-45, "Debugging Support for Other Languages") as the
 * extension reads it: the `*F` file section, the `*L` line section and the
 * `*E*` end marker, found either in `javap -v` output (the
 * `SourceDebugExtension` attribute, section 4.7.11 of the Java Virtual
 * Machine Specification) or by scanning the class file's bytes.
 */
module Smap {
  import opened Options
  import opened Text
  import opened LineTables

  // ---------------------------------------------------------------------
  // Line-section records
  // ---------------------------------------------------------------------

  /** `a[,b]:c[,d]`: JSP lines `a .. a+b-1` go to servlet lines `c, c+d, c+2d, ...`. */
  datatype LineInfo = LineInfo(inputStart: nat, repeat: Option<nat>, outputStart: nat, increment: Option<nat>)

  /** `a#f:c[,n]`: `n` JSP lines from `a` in file `f` go to `n` consecutive servlet lines from `c`. */
  datatype FileLineInfo = FileLineInfo(inputStart: nat, fileId: string, outputStart: nat, repeat: Option<nat>)

  /** An absent optional count reads as 1; a present one, even `0`, is taken as written. */
  function Count(n: Option<nat>): nat {
    if n.Some? then n.value else 1
  }

  /** The leading `\d*` of `s`. */
  function DigitRun(s: string): (d: string)
    ensures AllDigits(d) && |d| <= |s| && d == s[..|d|]
    ensures |d| == |s| || !IsDigit(s[|d|])
  {
    SkipDigitsFacts(s, 0);
    var j := SkipDigits(s, 0);
    assert forall k :: 0 <= k < j ==> IsDigit(s[..j][k]);
    s[..j]
  }

  /** A leading `\d+`: its value and the rest of the text. */
  function Number(s: string): (r: Option<(nat, string)>)
    ensures r.None? <==> DigitRun(s) == []
    ensures r.Some? ==> r.value == (DigitsValue(DigitRun(s)), s[|DigitRun(s)|..])
  {
    var d := DigitRun(s);
    if d == [] then None else Some((DigitsValue(d), s[|d|..]))
  }

  /** A leading `(?:,(\d+))?`: fails only on a comma without digits after it. */
  function OptionalCount(s: string): Option<(Option<nat>, string)> {
    if s != [] && s[0] == ',' then
      match Number(s[1..])
      case None => None
      case Some((n, rest)) => Some((Some(n), rest))
    else Some((None, s))
  }

  /** The regular expression `^(\d+)(?:,(\d+))?:(\d+)(?:,(\d+))?$`. */
  function ParseLineInfo(line: string): Option<LineInfo> {
    match Number(line)
    case None => None
    case Some((a, s1)) =>
      match OptionalCount(s1)
      case None => None
      case Some((b, s2)) =>
        if s2 != [] && s2[0] == ':' then
          match Number(s2[1..])
          case None => None
          case Some((c, s3)) =>
            match OptionalCount(s3)
            case None => None
            case Some((d, s4)) => if s4 == [] then Some(LineInfo(a, b, c, d)) else None
        else None
  }

  /** The regular expression `^(\d+)#(\d+):(\d+)(?:,(\d+))?$`; the file id stays text. */
  function ParseFileLineInfo(line: string): Option<FileLineInfo> {
    match Number(line)
    case None => None
    case Some((a, s1)) =>
      if s1 != [] && s1[0] == '#' then
        var f := DigitRun(s1[1..]);
        var s2 := s1[1..][|f|..];
        if f != [] && s2 != [] && s2[0] == ':' then
          match Number(s2[1..])
          case None => None
          case Some((c, s3)) =>
            match OptionalCount(s3)
            case None => None
            case Some((n, s4)) => if s4 == [] then Some(FileLineInfo(a, f, c, n)) else None
        else None
      else None
  }

  function CountText(n: Option<nat>): string {
    match n
    case None => ""
    case Some(k) => "," + NatToString(k)
  }

  /** How a JSP compiler writes a line-section record. */
  function FormatLineInfo(r: LineInfo): string {
    NatToString(r.inputStart) + (CountText(r.repeat) + (":" + (NatToString(r.outputStart) + CountText(r.increment))))
  }

  function FormatFileLineInfo(r: FileLineInfo): string {
    NatToString(r.inputStart) + ("#" + (r.fileId + (":" + (NatToString(r.outputStart) + CountText(r.repeat)))))
  }

  /** A digit run followed by a non-digit is read off exactly. */
  lemma DigitRunPrefix(d: string, rest: string)
    requires AllDigits(d)
    requires rest == [] || !IsDigit(rest[0])
    ensures DigitRun(d + rest) == d
    ensures (d + rest)[|d|..] == rest
  {
    var s := d + rest;
    assert forall k :: 0 <= k < |d| ==> s[k] == d[k];
    assert rest != [] ==> s[|d|] == rest[0];
    SkipDigitsTo(s, 0, |d|);
  }

  lemma NumberPrefix(n: nat, rest: string)
    requires rest == [] || !IsDigit(rest[0])
    ensures Number(NatToString(n) + rest) == Some((n, rest))
  {
    DigitRunPrefix(NatToString(n), rest);
    NatToStringRoundTrip(n);
  }

  lemma CountPrefix(n: Option<nat>, rest: string)
    requires rest == [] || (rest[0] != ',' && !IsDigit(rest[0]))
    ensures OptionalCount(CountText(n) + rest) == Some((n, rest))
  {
    if n.Some? {
      var digits := NatToString(n.value);
      var s := CountText(n) + rest;
      assert s == [','] + (digits + rest);
      assert s[0] == ',' && s[1..] == digits + rest;
      NumberPrefix(n.value, rest);
    } else {
      assert CountText(n) + rest == rest;
    }
  }

  /** `ParseLineInfo` from the results of its four parts. */
  lemma ParseLineInfoParts(line: string, a: nat, s1: string, b: Option<nat>, s2: string, c: nat, s3: string, d: Option<nat>)
    requires Number(line) == Some((a, s1)) && OptionalCount(s1) == Some((b, s2))
    requires s2 != [] && s2[0] == ':' && Number(s2[1..]) == Some((c, s3)) && OptionalCount(s3) == Some((d, []))
    ensures ParseLineInfo(line) == Some(LineInfo(a, b, c, d))
  {
  }

  /** The common tail `c[,n]` of both record forms. */
  lemma CountTail(c: nat, n: Option<nat>)
    ensures Number(NatToString(c) + CountText(n)) == Some((c, CountText(n)))
    ensures OptionalCount(CountText(n)) == Some((n, []))
  {
    var t := CountText(n);
    assert t == [] || t[0] == ',';
    NumberPrefix(c, t);
    assert t + [] == t;
    CountPrefix(n, []);
  }

  /** Parsing reads back every record the format writes. */
  lemma ParseFormatLineInfo(r: LineInfo)
    ensures ParseLineInfo(FormatLineInfo(r)) == Some(r)
  {
    var t3 := NatToString(r.outputStart) + CountText(r.increment);
    var t2 := ":" + t3;
    var t1 := CountText(r.repeat) + t2;
    assert FormatLineInfo(r) == NatToString(r.inputStart) + t1;
    assert CountText(r.repeat) == [] || CountText(r.repeat)[0] == ',';
    NumberPrefix(r.inputStart, t1);
    CountPrefix(r.repeat, t2);
    assert t2[1..] == t3;
    CountTail(r.outputStart, r.increment);
    ParseLineInfoParts(FormatLineInfo(r), r.inputStart, t1, r.repeat, t2, r.outputStart, CountText(r.increment), r.increment);
  }

  lemma ParseFileLineInfoParts(line: string, a: nat, s1: string, f: string, s2: string, c: nat, s3: string, n: Option<nat>)
    requires Number(line) == Some((a, s1)) && s1 != [] && s1[0] == '#'
    requires f == DigitRun(s1[1..]) && f != [] && s2 == s1[1..][|f|..]
    requires s2 != [] && s2[0] == ':' && Number(s2[1..]) == Some((c, s3)) && OptionalCount(s3) == Some((n, []))
    ensures ParseFileLineInfo(line) == Some(FileLineInfo(a, f, c, n))
  {
  }

  /** The same for the file-id form, whose id is any non-empty digit run. */
  lemma ParseFormatFileLineInfo(r: FileLineInfo)
    requires |r.fileId| >= 1 && AllDigits(r.fileId)
    ensures ParseFileLineInfo(FormatFileLineInfo(r)) == Some(r)
  {
    var t3 := NatToString(r.outputStart) + CountText(r.repeat);
    var t2 := ":" + t3;
    var t1 := "#" + (r.fileId + t2);
    assert FormatFileLineInfo(r) == NatToString(r.inputStart) + t1;
    NumberPrefix(r.inputStart, t1);
    assert t1[1..] == r.fileId + t2;
    DigitRunPrefix(r.fileId, t2);
    assert t2[1..] == t3;
    CountTail(r.outputStart, r.repeat);
    ParseFileLineInfoParts(FormatFileLineInfo(r), r.inputStart, t1, r.fileId, t2, r.outputStart, CountText(r.repeat), r.repeat);
  }

  /** A line-section record never parses as a file-id record, and the other way round. */
  lemma RecordFormsDisjoint(line: string)
    ensures ParseLineInfo(line).Some? ==> ParseFileLineInfo(line).None?
  {
  }

  // ---------------------------------------------------------------------
  // Applying a record to the table
  // ---------------------------------------------------------------------

  /**
   * `for (j = 0; j < count; j++) mapping.set(a + j, c + j * d)`, one step at
   * a time: set `a` to `c`, then the remaining `count - 1` lines from `a + 1`
   * to servlet lines from `c + d`.
   */
  function ApplyRange(t: Table, a: nat, count: nat, c: nat, d: nat): Table
    decreases count
  {
    if count == 0 then t else ApplyRange(Set(t, a, c), a + 1, count - 1, c + d, d)
  }

  /** A record adds exactly the keys `a .. a+count-1`. */
  lemma {:induction false} ApplyRangeKeys(t: Table, a: nat, count: nat, c: nat, d: nat, k: int)
    ensures Has(ApplyRange(t, a, count, c, d), k) <==> (a <= k < a + count || Has(t, k))
    decreases count
  {
    if count > 0 {
      ApplyRangeKeys(Set(t, a, c), a + 1, count - 1, c + d, d, k);
    }
  }

  /** A record leaves every key outside its range as it was. */
  lemma {:induction false} ApplyRangeOutside(t: Table, a: nat, count: nat, c: nat, d: nat, k: int)
    requires !(a <= k < a + count) && Has(t, k)
    ensures Has(ApplyRange(t, a, count, c, d), k)
    ensures Get(ApplyRange(t, a, count, c, d), k) == Get(t, k)
    decreases count
  {
    if count > 0 {
      ApplyRangeOutside(Set(t, a, c), a + 1, count - 1, c + d, d, k);
    }
  }

  /** After a record, JSP line `a + j` maps to servlet line `c + j * d` for every `j < count`. */
  lemma {:induction false} ApplyRangeInside(t: Table, a: nat, count: nat, c: nat, d: nat, j: nat)
    requires j < count
    ensures Has(ApplyRange(t, a, count, c, d), a + j)
    ensures Get(ApplyRange(t, a, count, c, d), a + j) == c + j * d
    decreases count
  {
    if j == 0 {
      ApplyRangeOutside(Set(t, a, c), a + 1, count - 1, c + d, d, a);
    } else {
      ApplyRangeInside(Set(t, a, c), a + 1, count - 1, c + d, d, j - 1);
      assert a + 1 + (j - 1) == a + j;
      assert c + d + (j - 1) * d == c + j * d;
    }
  }

  function ApplyLineInfo(t: Table, r: LineInfo): Table {
    ApplyRange(t, r.inputStart, Count(r.repeat), r.outputStart, Count(r.increment))
  }

  /** A later record for the same JSP line overwrites an earlier one. */
  lemma LaterRecordWins(t: Table, r1: LineInfo, r2: LineInfo, j: nat)
    requires j < Count(r2.repeat)
    ensures Has(ApplyLineInfo(ApplyLineInfo(t, r1), r2), r2.inputStart + j)
    ensures Get(ApplyLineInfo(ApplyLineInfo(t, r1), r2), r2.inputStart + j) == r2.outputStart + j * Count(r2.increment)
  {
    ApplyRangeInside(ApplyLineInfo(t, r1), r2.inputStart, Count(r2.repeat), r2.outputStart, Count(r2.increment), j);
  }

  // ---------------------------------------------------------------------
  // The section state machine
  // ---------------------------------------------------------------------

  datatype ParserState = ParserState(
    inFileSection: bool,
    inLineSection: bool,
    currentFileId: string,
    targetFileFound: bool,
    mapping: Table)

  const Start := ParserState(false, false, "", false, Empty)

  /** A non-header line inside `*F`: `+ id name` records the id; a bare name mentioning `.jsp` counts too. */
  function FileEntry(st: ParserState, line: string): ParserState
    requires line != ""
  {
    if line[0] == '+' then
      var parts := Split(Trim(line[1..]), ' ');
      if |parts| >= 2 then st.(currentFileId := parts[0], targetFileFound := true) else st
    else if Contains(line, ".jsp") then st.(targetFileFound := true)
    else st
  }

  /**
   * A non-header line inside `*L` after a file entry was seen: a range record
   * applies; otherwise a file-id record applies when its id is the last one
   * declared or none was; anything else is ignored.
   */
  function RecordEffect(t: Table, line: string, currentFileId: string): Table {
    match ParseLineInfo(line)
    case Some(r) => ApplyLineInfo(t, r)
    case None =>
      match ParseFileLineInfo(line)
      case Some(r) =>
        if r.fileId == currentFileId || currentFileId == "" then
          ApplyRange(t, r.inputStart, Count(r.repeat), r.outputStart, 1)
        else t
      case None => t
  }

  /** One line of the SMAP text other than the terminating `*E*`. */
  function Step(st: ParserState, raw: string): ParserState {
    var line := Trim(raw);
    if line == "" then st
    else if line == "*F" then st.(inFileSection := true, inLineSection := false)
    else if line == "*L" then st.(inLineSection := true, inFileSection := false)
    else if line[0] == '*' && line != "*E*" then st.(inFileSection := false, inLineSection := false)
    else Body(st, line)
  }

  /** A trimmed line that is not a section header: a file entry, then a record. */
  function Body(st: ParserState, line: string): ParserState
    requires line != ""
  {
    var st1 := if st.inFileSection then FileEntry(st, line) else st;
    if st1.inLineSection && st1.targetFileFound
    then st1.(mapping := RecordEffect(st1.mapping, line, st1.currentFileId))
    else st1
  }

  /** The lines from `st` on, stopping at the first line that trims to `*E*`. */
  function Run(st: ParserState, lines: seq<string>): Table
    decreases |lines|
  {
    if lines == [] then st.mapping
    else if Trim(lines[0]) == "*E*" then st.mapping
    else Run(Step(st, lines[0]), lines[1..])
  }

  /**
   * The table `parseSmapContent` builds. It splits on `\r?\n`; splitting on
   * `\n` alone differs only by a trailing `\r` on each piece, which the
   * trim in `Step` removes (`StepIgnoresCarriageReturn`).
   */
  function SmapTable(smap: string): Table {
    Run(Start, Split(smap, '\n'))
  }

  lemma StepIgnoresCarriageReturn(st: ParserState, raw: string)
    ensures Step(st, raw + "\r") == Step(st, raw)
    ensures Trim(raw + "\r") == "*E*" <==> Trim(raw) == "*E*"
  {
    TrimDropsCarriageReturn(raw);
  }

  /** One step of `Run`, or its end. */
  lemma RunAt(st: ParserState, lines: seq<string>, i: nat)
    requires i < |lines|
    ensures Trim(lines[i]) == "*E*" ==> Run(st, lines[i..]) == st.mapping
    ensures Trim(lines[i]) != "*E*" ==> Run(st, lines[i..]) == Run(Step(st, lines[i]), lines[i + 1..])
  {
    assert lines[i..][0] == lines[i] && lines[i..][1..] == lines[i + 1..];
  }

  /** One turn of the loop: line `a + j` goes to `c + j * d` and the rest of the range follows. */
  lemma ApplyRangeNext(m: Table, a: nat, j: nat, count: nat, c: nat, d: nat)
    requires j < count
    ensures ApplyRange(m, a + j, count - j, c + j * d, d)
         == ApplyRange(Set(m, a + j, c + j * d), a + (j + 1), count - (j + 1), c + (j + 1) * d, d)
  {
    assert c + j * d + d == c + (j + 1) * d;
  }

  /** The `for` loop of a range record. */
  method ApplyRangeLoop(t: Table, a: nat, count: nat, c: nat, d: nat) returns (mapping: Table)
    ensures mapping == ApplyRange(t, a, count, c, d)
  {
    mapping := t;
    for j := 0 to count
      invariant ApplyRange(mapping, a + j, count - j, c + j * d, d) == ApplyRange(t, a, count, c, d)
    {
      ApplyRangeNext(mapping, a, j, count, c, d);
      mapping := Set(mapping, a + j, c + j * d);
    }
  }

  /** The record matching of the line section. */
  method ApplyRecord(t: Table, line: string, currentFileId: string) returns (mapping: Table)
    ensures mapping == RecordEffect(t, line, currentFileId)
  {
    mapping := t;
    var range := ParseLineInfo(line);
    if range.Some? {
      var r := range.value;
      mapping := ApplyRangeLoop(mapping, r.inputStart, Count(r.repeat), r.outputStart, Count(r.increment));
      return;
    }
    var fileRange := ParseFileLineInfo(line);
    if fileRange.Some? {
      var r := fileRange.value;
      if r.fileId == currentFileId || currentFileId == "" {
        mapping := ApplyRangeLoop(mapping, r.inputStart, Count(r.repeat), r.outputStart, 1);
      }
    }
  }

  /**
   * `parseSmapContent`. The JSP file name is only logged by the source, so
   * it does not influence the result.
   */
  method ParseSmapContent(smapData: string, jspFileName: string) returns (mapping: Table)
    ensures mapping == SmapTable(smapData)
  {
    var lines := Split(smapData, '\n');
    var inFileSection := false;
    var inLineSection := false;
    var currentFileId := "";
    var targetFileFound := false;
    mapping := Empty;
    var i := 0;
    while i < |lines|
      invariant 0 <= i <= |lines|
      invariant Run(ParserState(inFileSection, inLineSection, currentFileId, targetFileFound, mapping), lines[i..])
             == SmapTable(smapData)
    {
      RunAt(ParserState(inFileSection, inLineSection, currentFileId, targetFileFound, mapping), lines, i);
      if Trim(lines[i]) == "*E*" {
        break;
      }
      inFileSection, inLineSection, currentFileId, targetFileFound, mapping :=
        ReadLine(inFileSection, inLineSection, currentFileId, targetFileFound, mapping, lines[i]);
      i := i + 1;
    }
  }

  /**
   * One pass of the loop body for a line that does not trim to `*E*`: blank
   * lines are skipped, `*F` and `*L` open their sections, any other line
   * starting with `*` closes both, and the rest go to `ReadBodyLine`.
   */
  method ReadLine(fileSection: bool, lineSection: bool, fileId: string, found: bool, table: Table, raw: string)
    returns (inFileSection: bool, inLineSection: bool, currentFileId: string, targetFileFound: bool, mapping: Table)
    requires Trim(raw) != "*E*"
    ensures ParserState(inFileSection, inLineSection, currentFileId, targetFileFound, mapping)
         == Step(ParserState(fileSection, lineSection, fileId, found, table), raw)
  {
    StepCases(ParserState(fileSection, lineSection, fileId, found, table), raw);
    inFileSection, inLineSection, currentFileId, targetFileFound, mapping := fileSection, lineSection, fileId, found, table;
    var line := Trim(raw);
    if line == "" {
      return;
    }
    if line == "*F" {
      inFileSection := true;
      inLineSection := false;
      return;
    }
    if line == "*L" {
      inLineSection := true;
      inFileSection := false;
      return;
    }
    if line[0] == '*' {
      inFileSection := false;
      inLineSection := false;
      return;
    }
    currentFileId, targetFileFound, mapping := ReadBodyLine(inFileSection, inLineSection, currentFileId, targetFileFound, mapping, line);
  }

  /** `Step` case by case, in the order the loop tests them. */
  lemma StepCases(st: ParserState, raw: string)
    ensures Trim(raw) == "" ==> Step(st, raw) == st
    ensures Trim(raw) == "*F" ==> Step(st, raw) == st.(inFileSection := true, inLineSection := false)
    ensures Trim(raw) == "*L" ==> Step(st, raw) == st.(inLineSection := true, inFileSection := false)
    ensures Trim(raw) != "" && Trim(raw) != "*F" && Trim(raw) != "*L" && Trim(raw)[0] == '*' && Trim(raw) != "*E*"
            ==> Step(st, raw) == st.(inFileSection := false, inLineSection := false)
    ensures Trim(raw) != "" && Trim(raw)[0] != '*' ==> Step(st, raw) == Body(st, Trim(raw))
  {
  }

  /** The part of the loop body after the header checks, as `Body`. */
  method ReadBodyLine(inFileSection: bool, inLineSection: bool, fileId: string, found: bool, table: Table, line: string)
    returns (currentFileId: string, targetFileFound: bool, mapping: Table)
    requires line != ""
    ensures Body(ParserState(inFileSection, inLineSection, fileId, found, table), line)
         == ParserState(inFileSection, inLineSection, currentFileId, targetFileFound, mapping)
  {
    currentFileId, targetFileFound, mapping := fileId, found, table;
    if inFileSection {
      if line[0] == '+' {
        var parts := Split(Trim(line[1..]), ' ');
        if |parts| >= 2 {
          currentFileId := parts[0];
          targetFileFound := true;
        }
      } else if Contains(line, ".jsp") {
        targetFileFound := true;
      }
    }
    if inLineSection && targetFileFound {
      mapping := ApplyRecord(mapping, line, currentFileId);
    }
  }

  // ---------------------------------------------------------------------
  // Every table the parser builds is well formed
  // ---------------------------------------------------------------------

  lemma {:induction false} ApplyRangeWellFormed(t: Table, a: nat, count: nat, c: nat, d: nat)
    requires WellFormed(t)
    ensures WellFormed(ApplyRange(t, a, count, c, d))
    decreases count
  {
    if count > 0 {
      SetWellFormed(t, a, c);
      ApplyRangeWellFormed(Set(t, a, c), a + 1, count - 1, c + d, d);
    }
  }

  lemma RecordEffectWellFormed(t: Table, line: string, currentFileId: string)
    requires WellFormed(t)
    ensures WellFormed(RecordEffect(t, line, currentFileId))
  {
    match ParseLineInfo(line)
    case Some(r) =>
      ApplyRangeWellFormed(t, r.inputStart, Count(r.repeat), r.outputStart, Count(r.increment));
    case None =>
      match ParseFileLineInfo(line)
      case Some(r) => ApplyRangeWellFormed(t, r.inputStart, Count(r.repeat), r.outputStart, 1);
      case None =>
  }

  lemma StepWellFormed(st: ParserState, raw: string)
    requires WellFormed(st.mapping)
    ensures WellFormed(Step(st, raw).mapping)
  {
    var line := Trim(raw);
    if line != "" {
      var st1 := if st.inFileSection then FileEntry(st, line) else st;
      RecordEffectWellFormed(st1.mapping, line, st1.currentFileId);
      assert WellFormed(Body(st, line).mapping);
    }
  }

  lemma {:induction false} RunWellFormed(st: ParserState, lines: seq<string>)
    requires WellFormed(st.mapping)
    ensures WellFormed(Run(st, lines))
    decreases |lines|
  {
    if lines != [] && Trim(lines[0]) != "*E*" {
      StepWellFormed(st, lines[0]);
      RunWellFormed(Step(st, lines[0]), lines[1..]);
    }
  }

  /** Whatever the text, the parsed table lists each JSP line once, in insertion order. */
  lemma SmapTableWellFormed(smap: string)
    ensures WellFormed(SmapTable(smap))
  {
    RunWellFormed(Start, Split(smap, '\n'));
  }

  // ---------------------------------------------------------------------
  // Section rules
  // ---------------------------------------------------------------------

  /** Without a line that trims to `*L`, no record is ever applied. */
  lemma {:induction false} NoLineSectionNoMapping(st: ParserState, lines: seq<string>)
    requires !st.inLineSection
    requires forall l :: l in lines ==> Trim(l) != "*L"
    ensures Run(st, lines) == st.mapping
    decreases |lines|
  {
    if lines != [] && Trim(lines[0]) != "*E*" {
      var next := Step(st, lines[0]);
      assert !next.inLineSection && next.mapping == st.mapping;
      assert forall l :: l in lines[1..] ==> l in lines;
      NoLineSectionNoMapping(next, lines[1..]);
    }
  }

  /** Without any file entry (no `+` line, no name mentioning `.jsp`), no record is ever applied. */
  lemma {:induction false} NoFileEntryNoMapping(st: ParserState, lines: seq<string>)
    requires !st.targetFileFound
    requires forall l :: l in lines ==> !Contains(Trim(l), ".jsp") && !StartsWith(Trim(l), "+")
    ensures Run(st, lines) == st.mapping
    decreases |lines|
  {
    if lines != [] && Trim(lines[0]) != "*E*" {
      var line := Trim(lines[0]);
      var next := Step(st, lines[0]);
      assert line != "" && line[0] == '+' ==> StartsWith(line, "+");
      assert !next.targetFileFound && next.mapping == st.mapping;
      assert forall l :: l in lines[1..] ==> l in lines;
      NoFileEntryNoMapping(next, lines[1..]);
    }
  }

  /** Nothing after the first `*E*` line has any effect. */
  lemma {:induction false} EndStopsParsing(st: ParserState, lines: seq<string>, k: nat, rest: seq<string>)
    requires k < |lines| && Trim(lines[k]) == "*E*"
    ensures Run(st, lines) == Run(st, lines[..k + 1] + rest)
    decreases k
  {
    var cut := lines[..k + 1] + rest;
    assert cut[0] == lines[0];
    if k > 0 && Trim(lines[0]) != "*E*" {
      assert lines[1..][..k] + rest == cut[1..];
      EndStopsParsing(Step(st, lines[0]), lines[1..], k - 1, rest);
    }
  }

  /** A file-id record for another file than the last one declared is ignored. */
  lemma OtherFileIgnored(st: ParserState, line: string)
    requires ParseLineInfo(line).None?
    requires ParseFileLineInfo(line).Some?
    requires st.currentFileId != "" && ParseFileLineInfo(line).value.fileId != st.currentFileId
    ensures RecordEffect(st.mapping, line, st.currentFileId) == st.mapping
  {
  }

  /** Inside `*L` after a file entry, a line that starts with a digit is a record. */
  lemma StepRecord(st: ParserState, line: string)
    requires st.inLineSection && !st.inFileSection && st.targetFileFound
    requires line != [] && IsDigit(line[0]) && !IsSpace(line[|line| - 1])
    ensures Step(st, line) == st.(mapping := RecordEffect(st.mapping, line, st.currentFileId))
  {
    TrimUntouched(line);
  }

  lemma FormatEndsWithDigit(r: LineInfo)
    ensures var s := FormatLineInfo(r); s != [] && IsDigit(s[0]) && IsDigit(s[|s| - 1])
  {
    var a := NatToString(r.inputStart);
    var c := NatToString(r.outputStart);
    var d := CountText(r.increment);
    var s := FormatLineInfo(r);
    assert s[0] == a[0];
    var tail := c + d;
    assert tail[|tail| - 1] == if d == [] then c[|c| - 1] else d[|d| - 1];
    assert s[|s| - 1] == tail[|tail| - 1];
  }

  /** Inside `*L` after a file entry, a written record is applied. */
  lemma StepFormatted(st: ParserState, r: LineInfo)
    requires st.inLineSection && !st.inFileSection && st.targetFileFound
    ensures Step(st, FormatLineInfo(r)) == st.(mapping := ApplyLineInfo(st.mapping, r))
    ensures Trim(FormatLineInfo(r)) != "*E*"
  {
    var line := FormatLineInfo(r);
    FormatEndsWithDigit(r);
    TrimUntouched(line);
    assert line != "*E*" by {
      assert line[0] != '*';
    }
    ParseFormatLineInfo(r);
    assert RecordEffect(st.mapping, line, st.currentFileId) == ApplyLineInfo(st.mapping, r);
    StepRecord(st, line);
  }

  /** Two written records in a row are applied in order. */
  lemma RunTwoRecords(st: ParserState, r1: LineInfo, r2: LineInfo)
    requires st.inLineSection && !st.inFileSection && st.targetFileFound
    ensures Run(st, [FormatLineInfo(r1), FormatLineInfo(r2)]) == ApplyLineInfo(ApplyLineInfo(st.mapping, r1), r2)
  {
    var lines := [FormatLineInfo(r1), FormatLineInfo(r2)];
    StepFormatted(st, r1);
    var st1 := st.(mapping := ApplyLineInfo(st.mapping, r1));
    StepFormatted(st1, r2);
    RunAt(st, lines, 0);
    RunAt(st1, lines, 1);
    assert lines[2..] == [];
  }

  /**
   * The records `7,52:128` and `124,4:246,3`, applied in that order (as
   * `RunTwoRecords` shows the parser does), send JSP 9 to 130 and JSP 126 to 252.
   */
  lemma RangeExamples(t: Table)
    ensures var m := ApplyLineInfo(ApplyLineInfo(t, LineInfo(7, Some(52), 128, None)), LineInfo(124, Some(4), 246, Some(3)));
      Has(m, 9) && Get(m, 9) == 130 && Has(m, 126) && Get(m, 126) == 252
  {
    var t1 := ApplyLineInfo(t, LineInfo(7, Some(52), 128, None));
    ApplyRangeInside(t, 7, 52, 128, 1, 2);
    ApplyRangeOutside(t1, 124, 4, 246, 3, 9);
    ApplyRangeInside(t1, 124, 4, 246, 3, 2);
  }

  // ---------------------------------------------------------------------
  // Locating the SMAP text
  // ---------------------------------------------------------------------

  newtype byte = b: int | 0 <= b < 256

  /** `buffer.toString('latin1')`: one character per byte, with the byte's code. */
  function Latin1(bytes: seq<byte>): (s: string)
    ensures |s| == |bytes|
    ensures forall i :: 0 <= i < |bytes| ==> s[i] as int == bytes[i] as int
  {
    seq(|bytes|, i requires 0 <= i < |bytes| => (bytes[i] as int) as char)
  }

  /** An occurrence inside a slice is an occurrence in the whole text. */
  lemma OccursInSlice(s: string, lo: nat, hi: nat, pat: string, k: int)
    requires lo <= hi <= |s|
    ensures OccursAt(s[lo..hi], pat, k) ==> OccursAt(s, pat, lo + k)
  {
    if OccursAt(s[lo..hi], pat, k) {
      var inner := s[lo..hi][k..k + |pat|];
      var outer := s[lo + k..lo + k + |pat|];
      assert forall i :: 0 <= i < |pat| ==> inner[i] == outer[i];
      assert inner == outer;
    }
  }

  /** The slice up to the first `*E*` at or after `start` holds no earlier `*E*`. */
  lemma NoEarlierEnd(s: string, start: nat, end: nat, r: string)
    requires start <= |s| && IndexOf(s, "*E*", start) == end && r == s[start..end + 3]
    ensures forall k :: 0 <= k < end - start ==> !OccursAt(r, "*E*", k)
  {
    forall k | 0 <= k < end - start
      ensures !OccursAt(r, "*E*", k)
    {
      OccursInSlice(s, start, end + 3, "*E*", k);
    }
  }

  /**
   * `findSmapInClassFile`: from the first `SMAP` up to and including the
   * first `*E*` after it.
   */
  function FindSmapInClassFile(classStr: string): (r: Option<string>)
    ensures r.None? <==> (IndexOf(classStr, "SMAP", 0) < 0
                          || IndexOf(classStr, "*E*", IndexOf(classStr, "SMAP", 0)) < 0)
    ensures r.Some? ==> StartsWith(r.value, "SMAP") && EndsWith(r.value, "*E*")
    ensures r.Some? ==> var k := IndexOf(classStr, "SMAP", 0);
      k + |r.value| <= |classStr| && classStr[k..k + |r.value|] == r.value
    ensures r.Some? ==> forall k :: 0 <= k < |r.value| - 3 ==> !OccursAt(r.value, "*E*", k)
  {
    var start := IndexOf(classStr, "SMAP", 0);
    if start < 0 then None
    else
      var end := IndexOf(classStr, "*E*", start);
      if end < 0 then None
      else
        FindSmapCoversMarkers(classStr, start, end);
        var r := classStr[start..end + 3];
        NoEarlierEnd(classStr, start, end, r);
        Some(r)
  }

  /** The `*E*` found after `SMAP` starts past the four header letters, so the blob has both whole. */
  lemma FindSmapCoversMarkers(classStr: string, start: nat, end: int)
    requires start == IndexOf(classStr, "SMAP", 0) && end == IndexOf(classStr, "*E*", start) && end >= 0
    ensures start + 4 <= end && end + 3 <= |classStr|
    ensures var r := classStr[start..end + 3];
      StartsWith(r, "SMAP") && EndsWith(r, "*E*") && |r| >= 7
  {
    HeaderHasNoStar(classStr, start);
    assert classStr[end] == classStr[end..end + 3][0];
    var r := classStr[start..end + 3];
    assert r[..4] == classStr[start..start + 4];
    assert r[|r| - 3..] == classStr[end..end + 3];
  }

  lemma HeaderHasNoStar(s: string, start: nat)
    requires OccursAt(s, "SMAP", start)
    ensures forall k :: start <= k < start + 4 ==> s[k] != '*'
  {
    var head := s[start..start + 4];
    assert s[start] == head[0] && s[start + 1] == head[1];
    assert s[start + 2] == head[2] && s[start + 3] == head[3];
  }

  /** `extractSmapFromClassFile`: the SMAP table read from the class file's bytes, empty when there is none. */
  function ClassFileTable(classBytes: seq<byte>): Table {
    match FindSmapInClassFile(Latin1(classBytes))
    case None => Empty
    case Some(smap) => SmapTable(smap)
  }

  // ---------------------------------------------------------------------
  // The SourceDebugExtension section of `javap -v` output:
  // /SourceDebugExtension:\s*\n([\s\S]*?)(?=\n\S|\n*$)/
  // ---------------------------------------------------------------------

  const Marker := "SourceDebugExtension:"

  /** The last `\n` in `s[lo..hi]`: where greedy `\s*` hands over to `\n`. */
  function LastNewline(s: string, lo: nat, hi: nat): (r: Option<nat>)
    requires lo <= hi <= |s|
    ensures r.Some? ==> lo <= r.value < hi && s[r.value] == '\n'
    ensures r.Some? ==> forall k :: r.value < k < hi ==> s[k] != '\n'
    ensures r.None? ==> forall k :: lo <= k < hi ==> s[k] != '\n'
    decreases hi
  {
    if hi == lo then None
    else if s[hi - 1] == '\n' then Some(hi - 1)
    else LastNewline(s, lo, hi - 1)
  }

  /** The look-ahead `(?=\n\S|\n*$)` holds at index `y`. */
  predicate SectionStop(s: string, y: nat)
    requires y <= |s|
  {
    (y + 1 < |s| && s[y] == '\n' && !IsSpace(s[y + 1]))
    || (forall k :: y <= k < |s| ==> s[k] == '\n')
  }

  /** The lazy `[\s\S]*?`: the first index from `q` on where the look-ahead holds. */
  function SectionEnd(s: string, q: nat): (y: nat)
    requires q <= |s|
    ensures q <= y <= |s| && SectionStop(s, y)
    ensures forall z :: q <= z < y ==> !SectionStop(s, z)
    decreases |s| - q
  {
    if SectionStop(s, q) then q else SectionEnd(s, q + 1)
  }

  /**
   * The captured group of the leftmost match at or after `from`: the first
   * marker whose trailing white space holds a line break, the body starting
   * after the last line break of that white space.
   */
  function SourceDebugSection(s: string, from: nat): (r: Option<string>)
    requires from <= |s|
    ensures r.Some? ==> forall z :: 0 <= z < |r.value| - 1 ==> !(r.value[z] == '\n' && !IsSpace(r.value[z + 1]))
    decreases |s| - from
  {
    var p := IndexOf(s, Marker, from);
    if p < 0 then None
    else
      var a := p + |Marker|;
      match LastNewline(s, a, SkipSpaces(s, a))
      case None => if p + 1 <= |s| then SourceDebugSection(s, p + 1) else None
      case Some(x) =>
        var y := SectionEnd(s, x + 1);
        var body := s[x + 1..y];
        assert forall z :: 0 <= z < |body| - 1 ==> !(body[z] == '\n' && !IsSpace(body[z + 1])) by {
          forall z | 0 <= z < |body| - 1 ensures !(body[z] == '\n' && !IsSpace(body[z + 1])) {
            assert !SectionStop(s, x + 1 + z);
          }
        }
        Some(body)
  }

  /** `extractSmapFromJavapOutput`: the SMAP table of the section, empty when there is none. */
  function JavapTable(javapOutput: string): Table {
    match SourceDebugSection(javapOutput, 0)
    case None => Empty
    case Some(smap) => SmapTable(smap)
  }
}
