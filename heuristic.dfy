/**
 * The last-resort JSP-to-servlet table (`createHeuristicMapping`), used when
 * a servlet carries neither line comments nor SMAP data: JSP lines spread
 * evenly over the body of the generated `_jspService` method, or a single
 * guess when there is no such method.
 */
module Heuristic {
  import opened Options
  import opened Text
  import opened LineTables
  import opened JsMath

  /** A trimmed line holding both `_jspService` and `(`: the method's header. */
  predicate IsServiceLine(line: string) {
    var l := Trim(line);
    Contains(l, "_jspService") && Contains(l, "(")
  }

  /** The first service-method header at or after line `i`. */
  function FirstService(lines: seq<string>, i: nat): (r: Option<nat>)
    requires i <= |lines|
    ensures r.Some? ==> i <= r.value < |lines| && IsServiceLine(lines[r.value])
    ensures forall k :: i <= k < (if r.Some? then r.value else |lines|) ==> !IsServiceLine(lines[k])
    decreases |lines| - i
  {
    if i == |lines| then None
    else if IsServiceLine(lines[i]) then Some(i)
    else FirstService(lines, i + 1)
  }

  /** Occurrences of `c` in `s`: the length of `s.match(/c/g) || []`. */
  function Count(s: string, c: char): nat {
    multiset(s)[c]
  }

  /** What one line adds to the brace count: its `{` less its `}`. */
  function BraceDelta(line: string): int {
    Count(line, '{') - Count(line, '}')
  }

  /** The brace count over lines `[i, j)`. */
  function BraceSum(lines: seq<string>, i: nat, j: nat): int
    requires i <= j <= |lines|
    decreases j - i
  {
    if j == i then 0 else BraceSum(lines, i, j - 1) + BraceDelta(lines[j - 1])
  }

  /** Line `k`, after the header at `start`, brings the brace count back to zero. */
  predicate ClosesAt(lines: seq<string>, start: nat, k: nat)
    requires start <= k < |lines|
  {
    start < k && BraceSum(lines, start, k + 1) == 0
  }

  /**
   * Where the method starting at `start` ends, searching from `j`: the first
   * line after the header at which the brace count, taken from the header
   * on, is back to zero.
   */
  function ServiceEnd(lines: seq<string>, start: nat, j: nat): (r: Option<nat>)
    requires start <= j <= |lines|
    ensures r.Some? ==> j <= r.value < |lines| && ClosesAt(lines, start, r.value)
    ensures forall k :: j <= k < (if r.Some? then r.value else |lines|) ==> !ClosesAt(lines, start, k)
    decreases |lines| - j
  {
    if j == |lines| then None
    else if BraceSum(lines, start, j + 1) == 0 && j > start then Some(j)
    else ServiceEnd(lines, start, j + 1)
  }

  /** `serviceMethodEnd`: the closing line, or -1 when the braces never balance. */
  function EndOf(lines: seq<string>, start: nat): int
    requires start <= |lines|
  {
    match ServiceEnd(lines, start, start)
    case Some(e) => e
    case None => -1
  }

  /** With a header at `start`, the table is the linear spread over the method's lines. */
  lemma HeuristicOfService(lines: seq<string>, start: nat, m: int)
    requires FirstService(lines, 0) == Some(start) && m == EndOf(lines, start) - start
    ensures m >= 0 || Estimated(m) == 1
    ensures HeuristicMapping(lines) == LinearTo(start, m, Estimated(m), Estimated(m))
  {
    assert m >= 0 || Estimated(m) == 1 by {
      EndAfterStart(lines, start);
    }
  }

  /** The end, when there is one, lies after the header. */
  lemma EndAfterStart(lines: seq<string>, start: nat)
    requires start <= |lines|
    ensures EndOf(lines, start) == -1 || EndOf(lines, start) > start
  {
    var r := ServiceEnd(lines, start, start);
    if r.Some? {
      assert ClosesAt(lines, start, r.value);
    }
  }

  /** `methodLines / 3`, floored and at least 1: how many JSP lines are guessed. */
  function Estimated(methodLines: int): (e: nat)
    ensures e >= 1
    ensures e > 1 ==> methodLines >= 6
  {
    Max(1, methodLines / 3)
  }

  /**
   * The servlet line guessed for JSP line `jsp` of `e`: the fraction
   * `(jsp - 1) / max(1, e - 1)` of the method's `m` lines past the header,
   * floored, plus one (computed on exact rationals).
   */
  function ServletLineFor(start: nat, m: int, e: nat, jsp: nat): (v: nat)
    requires 1 <= jsp <= e && (m >= 0 || e == 1)
  {
    var offset := (jsp - 1) * m;
    assert offset >= 0 by {
      if m >= 0 {
        MulNonNegative(jsp - 1, m);
      }
    }
    start + offset / Max(1, e - 1) + 1
  }

  /** The table after the `for` loop has set JSP lines `1..n`. */
  function LinearTo(start: nat, m: int, e: nat, n: nat): Table
    requires n <= e && (m >= 0 || e == 1)
  {
    if n == 0 then Empty
    else Set(LinearTo(start, m, e, n - 1), n, ServletLineFor(start, m, e, n))
  }

  /**
   * `createHeuristicMapping` on the servlet's lines: with no service method,
   * JSP line 1 at a fifth of the file (at most line 50); otherwise the linear
   * spread over the method's body.
   */
  function HeuristicMapping(lines: seq<string>): Table {
    match FirstService(lines, 0)
    case None => Set(Empty, 1, Min(50, |lines| / 5))
    case Some(start) =>
      var m := EndOf(lines, start) - start;
      LinearTo(start, m, Estimated(m), Estimated(m))
  }

  // ---------------------------------------------------------------------
  // The loops of createHeuristicMapping
  // ---------------------------------------------------------------------

  method CreateHeuristicMapping(servletContent: string) returns (mappings: Table)
    ensures mappings == HeuristicMapping(Split(servletContent, '\n'))
  {
    var lines := Split(servletContent, '\n');
    var serviceMethodStart, serviceMethodEnd := FindServiceMethod(lines);
    if serviceMethodStart == -1 {
      var basicStart := Min(50, |lines| / 5);
      mappings := Set(Empty, 1, basicStart);
      return;
    }
    var methodLines := serviceMethodEnd - serviceMethodStart;
    var estimatedJspLines := Max(1, methodLines / 3);
    EndAfterStart(lines, serviceMethodStart);
    HeuristicOfService(lines, serviceMethodStart, methodLines);
    mappings := LinearMapping(serviceMethodStart, methodLines, estimatedJspLines);
  }

  /** The outer `for` loop: the first header, and where its method ends. */
  method FindServiceMethod(lines: seq<string>) returns (start: int, end: int)
    ensures start == -1 <==> FirstService(lines, 0).None?
    ensures start != -1 ==> start == FirstService(lines, 0).value && end == EndOf(lines, start)
  {
    start, end := -1, -1;
    var i := 0;
    while i < |lines|
      invariant i <= |lines| && FirstService(lines, i) == FirstService(lines, 0)
      invariant start == -1
      decreases |lines| - i
    {
      var line := Trim(lines[i]);
      if Contains(line, "_jspService") && Contains(line, "(") {
        start := i;
        end := FindServiceEnd(lines, i);
        break;
      }
      i := i + 1;
    }
  }

  /** The last `for` loop: JSP lines `1..e` spread over the method's `m` lines. */
  method LinearMapping(start: nat, m: int, e: nat) returns (mappings: Table)
    requires e >= 1 && (m >= 0 || e == 1)
    ensures mappings == LinearTo(start, m, e, e)
  {
    mappings := Empty;
    var jspLine := 1;
    while jspLine <= e
      invariant 1 <= jspLine <= e + 1
      invariant mappings == LinearTo(start, m, e, jspLine - 1)
    {
      var servletLine := ServletLineFor(start, m, e, jspLine);
      mappings := Set(mappings, jspLine, servletLine);
      jspLine := jspLine + 1;
    }
  }

  /** The inner `for` loop: count braces from the header until they balance. */
  method FindServiceEnd(lines: seq<string>, start: nat) returns (end: int)
    requires start < |lines|
    ensures end == EndOf(lines, start)
  {
    end := -1;
    var braceCount := 0;
    var j := start;
    while j < |lines|
      invariant start <= j <= |lines|
      invariant braceCount == BraceSum(lines, start, j)
      invariant ServiceEnd(lines, start, j) == ServiceEnd(lines, start, start)
      decreases |lines| - j
    {
      var methodLine := lines[j];
      braceCount := braceCount + Count(methodLine, '{');
      braceCount := braceCount - Count(methodLine, '}');
      if braceCount == 0 && j > start {
        end := j;
        break;
      }
      j := j + 1;
    }
  }

  // ---------------------------------------------------------------------
  // What the heuristic table holds
  // ---------------------------------------------------------------------

  /** JSP line `k` is in the table after `n` steps exactly when `1 <= k <= n`, at its guessed line. */
  lemma {:induction false} LinearToSpec(start: nat, m: int, e: nat, n: nat, k: int)
    requires n <= e && (m >= 0 || e == 1)
    ensures Has(LinearTo(start, m, e, n), k) <==> 1 <= k <= n
    ensures Has(LinearTo(start, m, e, n), k) ==> Get(LinearTo(start, m, e, n), k) == ServletLineFor(start, m, e, k)
  {
    if n > 0 {
      LinearToSpec(start, m, e, n - 1, k);
    }
  }

  lemma {:induction false} LinearToWellFormed(start: nat, m: int, e: nat, n: nat)
    requires n <= e && (m >= 0 || e == 1)
    ensures WellFormed(LinearTo(start, m, e, n)) && Size(LinearTo(start, m, e, n)) == n
  {
    if n > 0 {
      var t := LinearTo(start, m, e, n - 1);
      LinearToWellFormed(start, m, e, n - 1);
      LinearToSpec(start, m, e, n - 1, n);
      SetNewKey(t, n, ServletLineFor(start, m, e, n));
    }
  }

  /**
   * The guesses start at the header line (1-based `start + 1`), end at the
   * closing line `start + m + 1` when there is more than one, and never go
   * backwards.
   */
  lemma ServletLineSpread(start: nat, m: int, e: nat, a: nat, b: nat)
    requires 1 <= a <= b <= e && (m >= 0 || e == 1)
    ensures ServletLineFor(start, m, e, 1) == start + 1
    ensures e > 1 ==> ServletLineFor(start, m, e, e) == start + m + 1
    ensures ServletLineFor(start, m, e, a) <= ServletLineFor(start, m, e, b)
  {
    var d := Max(1, e - 1);
    if e > 1 {
      DivShift(0, d, m);
      assert (e - 1) * m == d * m;
    }
    if m >= 0 {
      MulMonotone(a - 1, b - 1, m);
      DivMonotone((a - 1) * m, (b - 1) * m, d);
    }
  }

  /**
   * Without a `_jspService` header the table holds JSP line 1 only, at a
   * fifth of the servlet's lines and never past line 50.
   */
  lemma HeuristicWithoutService(lines: seq<string>, k: int)
    requires FirstService(lines, 0).None?
    ensures Has(HeuristicMapping(lines), k) <==> k == 1
    ensures Has(HeuristicMapping(lines), 1)
    ensures Get(HeuristicMapping(lines), 1) == Min(50, |lines| / 5) <= 50
  {
  }

  /**
   * With a header at `start` (0-based) whose braces balance at `end`, JSP
   * lines `1..max(1, floor((end - start) / 3))` are mapped, the first to the
   * header line, the last (when there are several) to the closing line, all
   * in between and in order.
   */
  lemma HeuristicSpread(lines: seq<string>, start: nat, end: nat, a: int, b: int)
    requires FirstService(lines, 0) == Some(start) && ServiceEnd(lines, start, start) == Some(end)
    ensures var t, e := HeuristicMapping(lines), Estimated(end - start);
      && (Has(t, a) <==> 1 <= a <= e)
      && Has(t, 1) && Get(t, 1) == start + 1
      && (e > 1 ==> Get(t, e) == end + 1)
      && (Has(t, a) ==> start + 1 <= Get(t, a) <= end + 1)
      && (Has(t, a) && Has(t, b) && a <= b ==> Get(t, a) <= Get(t, b))
  {
    assert EndOf(lines, start) == end;
    var m := end - start;
    assert m >= 1 by {
      assert ClosesAt(lines, start, end);
    }
    HeuristicOfService(lines, start, m);
    LinearSpread(start, m, HeuristicMapping(lines), a, b);
  }

  /** `HeuristicSpread` on the linear table itself. */
  lemma LinearSpread(start: nat, m: int, t: Table, a: int, b: int)
    requires m >= 1 && t == LinearTo(start, m, Estimated(m), Estimated(m))
    ensures var e := Estimated(m);
      && (Has(t, a) <==> 1 <= a <= e)
      && Has(t, 1) && Get(t, 1) == start + 1
      && (e > 1 ==> Get(t, e) == start + m + 1)
      && (Has(t, a) ==> start + 1 <= Get(t, a) <= start + m + 1)
      && (Has(t, a) && Has(t, b) && a <= b ==> Get(t, a) <= Get(t, b))
  {
    var e := Estimated(m);
    LinearToSpec(start, m, e, e, a);
    LinearToSpec(start, m, e, e, b);
    LinearToSpec(start, m, e, e, 1);
    LinearToSpec(start, m, e, e, e);
    ServletLineSpread(start, m, e, 1, 1);
    if 1 <= a <= b <= e {
      ServletLineSpread(start, m, e, a, b);
    }
    if 1 <= a <= e {
      ServletLineSpread(start, m, e, 1, a);
      ServletLineSpread(start, m, e, a, e);
      if e == 1 {
        assert ServletLineFor(start, m, e, a) == start + 1;
      }
    }
  }

  /** A method whose braces never balance gives JSP line 1 only, at the header line. */
  lemma HeuristicUnclosed(lines: seq<string>, start: nat, k: int)
    requires FirstService(lines, 0) == Some(start) && ServiceEnd(lines, start, start).None?
    ensures Has(HeuristicMapping(lines), k) <==> k == 1
    ensures Has(HeuristicMapping(lines), 1) && Get(HeuristicMapping(lines), 1) == start + 1
  {
    var m := EndOf(lines, start) - start;
    HeuristicOfService(lines, start, m);
    assert Estimated(m) == 1;
    LinearToSpec(start, m, 1, 1, k);
    LinearToSpec(start, m, 1, 1, 1);
  }

  /** The table is never empty, and keeps each key once. */
  lemma HeuristicWellFormed(lines: seq<string>)
    ensures WellFormed(HeuristicMapping(lines)) && Size(HeuristicMapping(lines)) >= 1
  {
    match FirstService(lines, 0)
    case None =>
      SetNewKey(Empty, 1, Min(50, |lines| / 5));
    case Some(start) =>
      ServiceTableWellFormed(lines, start);
  }

  lemma ServiceTableWellFormed(lines: seq<string>, start: nat)
    requires FirstService(lines, 0) == Some(start)
    ensures WellFormed(HeuristicMapping(lines)) && Size(HeuristicMapping(lines)) >= 1
  {
    var m := EndOf(lines, start) - start;
    HeuristicOfService(lines, start, m);
    LinearToWellFormed(start, m, Estimated(m), Estimated(m));
    SameTable(HeuristicMapping(lines), LinearTo(start, m, Estimated(m), Estimated(m)));
  }

  lemma SameTable(t: Table, t': Table)
    requires t == t' && WellFormed(t')
    ensures WellFormed(t) && Size(t) == Size(t')
  {
  }
}
