/**
 * `enhanceLineMappings`: the table read from annotation comments, with the
 * gaps between consecutive annotated JSP lines filled by linear
 * interpolation when the gap is small and the servlet lines increase.
 */
module Enhance {
  import opened Options
  import opened LineTables
  import opened Resolve
  import opened JsMath

  /** `jspGap > 1 && jspGap <= 20 && servletGap > 0` for two consecutive pairs. */
  predicate Close(p: Entry, n: Entry) {
    1 < n.key - p.key <= 20 && n.value > p.value
  }

  /**
   * `Math.round(servletStart + j * ratio)` with `ratio = servletGap / jspGap`,
   * on the exact rational: it lies between the two servlet lines.
   */
  function GapValue(p: Entry, n: Entry, j: nat): (v: nat)
    requires Close(p, n) && j <= n.key - p.key
    ensures p.value <= v <= n.value
  {
    var jspGap := n.key - p.key;
    var num := p.value * jspGap + j * (n.value - p.value);
    GapNumeratorBounds(p, n, j);
    RoundWithin(num, jspGap, p.value, n.value);
    RoundHalfUp(num, jspGap)
  }

  lemma GapNumeratorBounds(p: Entry, n: Entry, j: nat)
    requires Close(p, n) && j <= n.key - p.key
    ensures var g := n.key - p.key; var num := p.value * g + j * (n.value - p.value);
      g * p.value <= num <= g * n.value
  {
    var g := n.key - p.key;
    var d := n.value - p.value;
    assert j * d >= 0;
    assert (g - j) * d >= 0;
    assert g * n.value == g * p.value + g * d;
  }

  /** `if (!enhanced.has(k)) enhanced.set(k, v)`. */
  function SetIfAbsent(t: Table, k: nat, v: nat): Table {
    if Has(t, k) then t else Set(t, k, v)
  }

  /** The table after the inner loop has run for `j` in `[1, m)`. */
  function FillTo(t: Table, p: Entry, n: Entry, m: nat): Table
    requires Close(p, n) && m <= n.key - p.key
    decreases m
  {
    if m <= 1 then t
    else SetIfAbsent(FillTo(t, p, n, m - 1), p.key + (m - 1), GapValue(p, n, m - 1))
  }

  /** One step of the outer loop, on the pair `p`, `n`. */
  function GapStep(t: Table, p: Entry, n: Entry): Table {
    if Close(p, n) then FillTo(t, p, n, n.key - p.key) else t
  }

  /** The table after the outer loop has run for `i` in `[0, m)`. */
  function EnhanceTo(t: Table, pairs: seq<Entry>, m: nat): Table
    requires m < |pairs| || m == 0
  {
    if m == 0 then t else GapStep(EnhanceTo(t, pairs, m - 1), pairs[m - 1], pairs[m])
  }

  /** `Array.from(lineMappings.entries()).sort((a, b) => a[0] - b[0])`. */
  function Pairs(t: Table): seq<Entry> {
    SortBy(Entries(t), false)
  }

  /** How many consecutive pairs the outer loop visits: `mappingPairs.length - 1`, or none. */
  function Steps(pairs: seq<Entry>): (m: nat)
    ensures m < |pairs| || m == 0
  {
    if |pairs| == 0 then 0 else |pairs| - 1
  }

  /** What `enhanceLineMappings` returns. */
  function Enhanced(t: Table): Table {
    EnhanceTo(t, Pairs(t), Steps(Pairs(t)))
  }

  method EnhanceLineMappings(lineMappings: Table) returns (enhanced: Table)
    ensures enhanced == Enhanced(lineMappings)
  {
    enhanced := lineMappings;
    var mappingPairs := SortBy(Entries(lineMappings), false);
    var i := 0;
    while i < |mappingPairs| - 1
      invariant i < |mappingPairs| || i == 0
      invariant enhanced == EnhanceTo(lineMappings, mappingPairs, i)
      decreases |mappingPairs| - i
    {
      enhanced := FillGap(enhanced, mappingPairs[i], mappingPairs[i + 1]);
      i := i + 1;
    }
  }

  /** The body of the outer loop for the consecutive pairs `start` and `end`. */
  method FillGap(enhanced: Table, start: Entry, end: Entry) returns (r: Table)
    ensures r == GapStep(enhanced, start, end)
  {
    r := enhanced;
    var jspStart, servletStart := start.key, start.value;
    var jspEnd, servletEnd := end.key, end.value;
    var jspGap: int := jspEnd - jspStart;
    var servletGap: int := servletEnd - servletStart;
    if jspGap > 1 && jspGap <= 20 && servletGap > 0 {
      for j := 1 to jspGap
        invariant r == FillTo(enhanced, start, end, j)
      {
        var interpolatedJspLine := jspStart + j;
        var interpolatedServletLine := RoundHalfUp(servletStart * jspGap + j * servletGap, jspGap);
        assert interpolatedServletLine == GapValue(start, end, j);
        if !Has(r, interpolatedJspLine) {
          r := Set(r, interpolatedJspLine, interpolatedServletLine);
        }
      }
    }
  }

  // ---------------------------------------------------------------------
  // The inner loop
  // ---------------------------------------------------------------------

  /**
   * The inner loop adds the JSP lines strictly between `p.key` and
   * `p.key + m`, each with its interpolated servlet line, and keeps every
   * line already present with its value.
   */
  lemma {:induction false} FillToSpec(t: Table, p: Entry, n: Entry, m: nat, k: int)
    requires Close(p, n) && 1 <= m <= n.key - p.key
    ensures Has(FillTo(t, p, n, m), k) <==> Has(t, k) || p.key < k < p.key + m
    ensures Has(t, k) ==> Get(FillTo(t, p, n, m), k) == Get(t, k)
    ensures !Has(t, k) && p.key < k < p.key + m ==> Get(FillTo(t, p, n, m), k) == GapValue(p, n, k - p.key)
    decreases m
  {
    if m > 1 {
      FillToSpec(t, p, n, m - 1, k);
    }
  }

  lemma {:induction false} FillToWellFormed(t: Table, p: Entry, n: Entry, m: nat)
    requires WellFormed(t) && Close(p, n) && m <= n.key - p.key
    ensures WellFormed(FillTo(t, p, n, m))
    decreases m
  {
    if m > 1 {
      var f := FillTo(t, p, n, m - 1);
      FillToWellFormed(t, p, n, m - 1);
      SetWellFormed(f, p.key + (m - 1), GapValue(p, n, m - 1));
    }
  }

  // ---------------------------------------------------------------------
  // The outer loop
  // ---------------------------------------------------------------------

  /** JSP keys strictly increase along the pairs. */
  ghost predicate Ascending(pairs: seq<Entry>) {
    forall i, j :: 0 <= i < j < |pairs| ==> pairs[i].key < pairs[j].key
  }

  /** `k` lies strictly inside the gap that starts at pair `i`, and that gap is filled. */
  predicate InGap(pairs: seq<Entry>, i: nat, k: int) {
    i + 1 < |pairs| && Close(pairs[i], pairs[i + 1]) && pairs[i].key < k < pairs[i + 1].key
  }

  /**
   * After `m` steps of the outer loop, the table holds the original lines
   * with their values and the lines inside the filled gaps among the first
   * `m`, each with the value interpolated in its gap.
   */
  lemma {:induction false} EnhanceToSpec(t: Table, pairs: seq<Entry>, m: nat, k: int)
    requires Ascending(pairs) && (m < |pairs| || m == 0)
    ensures Has(EnhanceTo(t, pairs, m), k) <==> Has(t, k) || exists i :: 0 <= i < m && InGap(pairs, i, k)
    ensures Has(t, k) ==> Get(EnhanceTo(t, pairs, m), k) == Get(t, k)
    ensures forall i :: 0 <= i < m && InGap(pairs, i, k) && !Has(t, k) ==>
      Get(EnhanceTo(t, pairs, m), k) == GapValue(pairs[i], pairs[i + 1], k - pairs[i].key)
    decreases m
  {
    if m > 0 {
      EnhanceToSpec(t, pairs, m - 1, k);
      EnhanceStep(t, pairs, m, k, EnhanceTo(t, pairs, m - 1), EnhanceTo(t, pairs, m));
    }
  }

  /** The step from `m - 1` to `m` outer iterations keeps the three facts of `EnhanceToSpec`. */
  lemma EnhanceStep(t: Table, pairs: seq<Entry>, m: nat, k: int, before: Table, after: Table)
    requires Ascending(pairs) && 0 < m < |pairs|
    requires after == GapStep(before, pairs[m - 1], pairs[m])
    requires Has(before, k) <==> Has(t, k) || exists i :: 0 <= i < m - 1 && InGap(pairs, i, k)
    requires Has(t, k) ==> Get(before, k) == Get(t, k)
    requires forall i :: 0 <= i < m - 1 && InGap(pairs, i, k) && !Has(t, k) ==>
      Has(before, k) && Get(before, k) == GapValue(pairs[i], pairs[i + 1], k - pairs[i].key)
    ensures Has(after, k) <==> Has(t, k) || exists i :: 0 <= i < m && InGap(pairs, i, k)
    ensures Has(t, k) ==> Get(after, k) == Get(t, k)
    ensures forall i :: 0 <= i < m && InGap(pairs, i, k) && !Has(t, k) ==>
      Has(after, k) && Get(after, k) == GapValue(pairs[i], pairs[i + 1], k - pairs[i].key)
  {
    GapStepSpec(before, pairs[m - 1], pairs[m], k);
    if InGap(pairs, m - 1, k) {
      EarlierGapsMiss(pairs, m - 1, k);
    }
  }

  /** One step of the outer loop fills the gap between its pairs and keeps the rest. */
  lemma GapStepSpec(t: Table, p: Entry, n: Entry, k: int)
    ensures Has(GapStep(t, p, n), k) <==> Has(t, k) || (Close(p, n) && p.key < k < n.key)
    ensures Has(t, k) ==> Get(GapStep(t, p, n), k) == Get(t, k)
    ensures !Has(t, k) && Close(p, n) && p.key < k < n.key ==> Get(GapStep(t, p, n), k) == GapValue(p, n, k - p.key)
  {
    if Close(p, n) {
      FillToSpec(t, p, n, n.key - p.key, k);
    }
  }

  /** The gaps are disjoint: a line in the gap after pair `m` is in no earlier gap. */
  lemma EarlierGapsMiss(pairs: seq<Entry>, m: nat, k: int)
    requires Ascending(pairs) && InGap(pairs, m, k)
    ensures forall i :: 0 <= i < m ==> !InGap(pairs, i, k)
  {
    forall i | 0 <= i < m ensures !InGap(pairs, i, k) {
      assert pairs[i + 1].key <= pairs[m].key;
    }
  }

  lemma {:induction false} EnhanceToWellFormed(t: Table, pairs: seq<Entry>, m: nat)
    requires WellFormed(t) && (m < |pairs| || m == 0)
    ensures WellFormed(EnhanceTo(t, pairs, m))
    decreases m
  {
    if m > 0 {
      EnhanceToWellFormed(t, pairs, m - 1);
      var p, n := pairs[m - 1], pairs[m];
      if Close(p, n) {
        FillToWellFormed(EnhanceTo(t, pairs, m - 1), p, n, n.key - p.key);
      }
    }
  }

  // ---------------------------------------------------------------------
  // What enhanceLineMappings adds, in terms of the original table
  // ---------------------------------------------------------------------

  /**
   * `k` is not an original line, and the closest original lines below and
   * above it are close enough for the gap between them to be filled.
   */
  predicate Bridged(t: Table, k: int) {
    && !Has(t, k)
    && var below := Below(Entries(t), k);
    && var above := Above(Entries(t), k);
    && below.Some? && above.Some? && Close(below.value, above.value)
  }

  /** `k` lies in one of the gaps the outer loop fills. */
  ghost predicate Filled(pairs: seq<Entry>, k: int) {
    exists i :: 0 <= i < Steps(pairs) && InGap(pairs, i, k)
  }

  /**
   * The enhanced table holds exactly the original lines and the lines
   * bridged between two close originals; every line of it carries the
   * servlet line `findMappedLine` computes for it on the original table.
   * So original values are never overwritten, and each added value is the
   * interpolation between its two neighbours.
   */
  lemma EnhancedAgreesWithForward(t: Table, k: int)
    requires WellFormed(t)
    ensures Has(Enhanced(t), k) <==> Has(t, k) || Bridged(t, k)
    ensures Has(Enhanced(t), k) ==> Forward(t, k) == Some(Get(Enhanced(t), k))
  {
    PairsAscending(t);
    EnhancedLines(t, k);
    BridgedIffFilled(t, k);
    if Has(Enhanced(t), k) {
      if Has(t, k) {
        EnhancedKeeps(t, k);
      } else {
        var i := EnhancedGap(t, k);
        GapForward(t, i, k);
      }
    }
  }

  /** The lines of the enhanced table, in terms of the sorted pairs. */
  lemma EnhancedLines(t: Table, k: int)
    requires Ascending(Pairs(t))
    ensures Has(Enhanced(t), k) <==> Has(t, k) || Filled(Pairs(t), k)
  {
    EnhanceToSpec(t, Pairs(t), Steps(Pairs(t)), k);
  }

  /** An added line lies in a filled gap and carries the value the source interpolates there. */
  lemma EnhancedGap(t: Table, k: int) returns (i: nat)
    requires Ascending(Pairs(t)) && Has(Enhanced(t), k) && !Has(t, k)
    ensures InGap(Pairs(t), i, k)
    ensures Get(Enhanced(t), k) == GapValue(Pairs(t)[i], Pairs(t)[i + 1], k - Pairs(t)[i].key)
  {
    var pairs := Pairs(t);
    EnhanceToSpec(t, pairs, Steps(pairs), k);
    i :| 0 <= i < Steps(pairs) && InGap(pairs, i, k);
  }

  /** Inside a filled gap, `findMappedLine` on the original table gives the value the source interpolates. */
  lemma GapForward(t: Table, i: nat, k: int)
    requires WellFormed(t) && InGap(Pairs(t), i, k)
    requires Ascending(Pairs(t)) && forall e :: e in Pairs(t) <==> e in Entries(t)
    ensures Forward(t, k) == Some(GapValue(Pairs(t)[i], Pairs(t)[i + 1], k - Pairs(t)[i].key))
  {
    var pairs := Pairs(t);
    GapNeighbours(t, i, k);
    ForwardBetween(t, k, pairs[i], pairs[i + 1]);
    GapValueInterpolates(pairs[i], pairs[i + 1], k);
  }

  /** `findMappedLine` on a missing line with an entry on each side interpolates between them. */
  lemma ForwardBetween(t: Table, k: int, p: Entry, n: Entry)
    requires !Has(t, k) && p.key < k < n.key
    requires Below(Entries(t), k) == Some(p) && Above(Entries(t), k) == Some(n)
    ensures Forward(t, k) == Some(Interpolate(k, p, n))
  {
  }

  /** A line is bridged exactly when it lies in a filled gap between sorted pairs. */
  lemma BridgedIffFilled(t: Table, k: int)
    requires WellFormed(t)
    requires Ascending(Pairs(t)) && forall e :: e in Pairs(t) <==> e in Entries(t)
    ensures Bridged(t, k) <==> !Has(t, k) && Filled(Pairs(t), k)
  {
    var pairs := Pairs(t);
    if Filled(pairs, k) {
      var i :| 0 <= i < Steps(pairs) && InGap(pairs, i, k);
      GapNeighbours(t, i, k);
    }
    if Bridged(t, k) {
      var i := NeighboursGap(t, k);
      assert i < Steps(pairs);
    }
  }

  /** Every original line stays, with its value. */
  lemma EnhancedKeeps(t: Table, k: int)
    requires WellFormed(t) && Has(t, k)
    ensures Has(Enhanced(t), k) && Get(Enhanced(t), k) == Get(t, k)
  {
    PairsAscending(t);
    EnhanceToSpec(t, Pairs(t), Steps(Pairs(t)), k);
  }

  lemma EnhancedWellFormed(t: Table)
    requires WellFormed(t)
    ensures WellFormed(Enhanced(t))
  {
    EnhanceToWellFormed(t, Pairs(t), Steps(Pairs(t)));
  }

  /** The pairs are the entries, sorted by strictly increasing JSP line. */
  lemma PairsAscending(t: Table)
    requires WellFormed(t)
    ensures Ascending(Pairs(t))
    ensures forall e :: e in Pairs(t) <==> e in Entries(t)
  {
    var es := Entries(t);
    EntriesDistinct(t);
    SortByDistinct(es, false);
    var pairs := Pairs(t);
    forall e ensures e in pairs <==> e in es {
      assert e in pairs <==> e in multiset(pairs);
      assert e in es <==> e in multiset(es);
    }
    forall i, j | 0 <= i < j < |pairs| ensures pairs[i].key < pairs[j].key {
      assert Rank(pairs[i], false) <= Rank(pairs[j], false);
    }
  }

  /** An entry of a well-formed table is a stored key with its value. */
  lemma EntryOfKey(t: Table, e: Entry)
    requires WellFormed(t) && e in Entries(t)
    ensures Has(t, e.key) && e.value == Get(t, e.key)
  {
    var i :| 0 <= i < |Entries(t)| && Entries(t)[i] == e;
    assert t.order[i] in t.order;
  }

  /** A well-formed table has one entry per key. */
  lemma SameKeySameEntry(t: Table, e: Entry, e': Entry)
    requires WellFormed(t) && e in Entries(t) && e' in Entries(t) && e.key == e'.key
    ensures e == e'
  {
    EntryOfKey(t, e);
    EntryOfKey(t, e');
  }

  /** Every entry sits at or before pair `i`, or at or after pair `i + 1`. */
  lemma OutsideGap(t: Table, i: nat, e: Entry)
    requires Ascending(Pairs(t)) && forall e :: e in Pairs(t) <==> e in Entries(t)
    requires i + 1 < |Pairs(t)| && e in Entries(t)
    ensures e.key <= Pairs(t)[i].key || e.key >= Pairs(t)[i + 1].key
  {
    var pairs := Pairs(t);
    var j :| 0 <= j < |pairs| && pairs[j] == e;
    if j < i { assert pairs[j].key < pairs[i].key; }
    if j > i + 1 { assert pairs[i + 1].key < pairs[j].key; }
  }

  /** Inside a gap between consecutive pairs, those pairs are the closest entries on each side. */
  lemma GapNeighbours(t: Table, i: nat, k: int)
    requires WellFormed(t) && InGap(Pairs(t), i, k)
    requires Ascending(Pairs(t)) && forall e :: e in Pairs(t) <==> e in Entries(t)
    ensures !Has(t, k)
    ensures Below(Entries(t), k) == Some(Pairs(t)[i]) && Above(Entries(t), k) == Some(Pairs(t)[i + 1])
  {
    GapNotKey(t, i, k);
    GapBelow(t, i, k);
    GapAbove(t, i, k);
  }

  lemma GapNotKey(t: Table, i: nat, k: int)
    requires WellFormed(t) && InGap(Pairs(t), i, k)
    requires Ascending(Pairs(t)) && forall e :: e in Pairs(t) <==> e in Entries(t)
    ensures !Has(t, k)
  {
    if Has(t, k) {
      EntriesComplete(t, k);
      OutsideGap(t, i, Entry(k as nat, Get(t, k)));
    }
  }

  lemma GapBelow(t: Table, i: nat, k: int)
    requires WellFormed(t) && InGap(Pairs(t), i, k)
    requires Ascending(Pairs(t)) && forall e :: e in Pairs(t) <==> e in Entries(t)
    ensures Below(Entries(t), k) == Some(Pairs(t)[i])
  {
    var p := Pairs(t)[i];
    assert p in Entries(t);
    var b := Below(Entries(t), k).value;
    OutsideGap(t, i, b);
    assert b.key == p.key;
    SameKeySameEntry(t, b, p);
  }

  lemma GapAbove(t: Table, i: nat, k: int)
    requires WellFormed(t) && InGap(Pairs(t), i, k)
    requires Ascending(Pairs(t)) && forall e :: e in Pairs(t) <==> e in Entries(t)
    ensures Above(Entries(t), k) == Some(Pairs(t)[i + 1])
  {
    var n := Pairs(t)[i + 1];
    assert n in Entries(t);
    var a := Above(Entries(t), k).value;
    OutsideGap(t, i, a);
    assert a.key == n.key;
    SameKeySameEntry(t, a, n);
  }

  /** A bridged line lies inside the gap after some pair, and that gap is filled. */
  lemma NeighboursGap(t: Table, k: int) returns (i: nat)
    requires WellFormed(t) && Bridged(t, k)
    requires Ascending(Pairs(t)) && forall e :: e in Pairs(t) <==> e in Entries(t)
    ensures i + 1 < |Pairs(t)| && InGap(Pairs(t), i, k)
  {
    var pairs := Pairs(t);
    var es := Entries(t);
    var b, a := Below(es, k).value, Above(es, k).value;
    BelowAboveStrict(t, k);
    forall c | c in es ensures c.key <= b.key || c.key >= a.key {
      NoEntryBetween(t, k, c);
    }
    i := AdjacentGap(pairs, es, k, b, a);
  }

  /** Sorted pairs of the entries: the closest entries around `k` are adjacent, with `k` in their gap. */
  lemma AdjacentGap(pairs: seq<Entry>, es: seq<Entry>, k: int, b: Entry, a: Entry) returns (i: nat)
    requires Ascending(pairs) && forall e :: e in pairs <==> e in es
    requires b in es && a in es && b.key < k < a.key && Close(b, a)
    requires forall c :: c in es ==> c.key <= b.key || c.key >= a.key
    ensures i + 1 < |pairs| && InGap(pairs, i, k)
  {
    assert b in pairs && a in pairs;
    i :| 0 <= i < |pairs| && pairs[i] == b;
    var j :| 0 <= j < |pairs| && pairs[j] == a;
    AdjacentPairs(pairs, k, i, j);
  }

  /** The closest entries around a missing line lie strictly on either side of it. */
  lemma BelowAboveStrict(t: Table, k: int)
    requires WellFormed(t) && !Has(t, k)
    requires Below(Entries(t), k).Some? && Above(Entries(t), k).Some?
    ensures Below(Entries(t), k).value.key < k < Above(Entries(t), k).value.key
  {
    EntryOfKey(t, Below(Entries(t), k).value);
    EntryOfKey(t, Above(Entries(t), k).value);
  }

  /** Ascending pairs with none strictly between pair `i` and pair `j` around `k` are adjacent. */
  lemma AdjacentPairs(pairs: seq<Entry>, k: int, i: nat, j: nat)
    requires Ascending(pairs) && i < |pairs| && j < |pairs|
    requires pairs[i].key < k < pairs[j].key
    requires forall c :: c in pairs ==> c.key <= pairs[i].key || c.key >= pairs[j].key
    ensures j == i + 1
  {
    assert i < j;
    assert pairs[i + 1] in pairs;
  }

  /** No entry lies strictly between the closest entries below and above a missing line. */
  lemma NoEntryBetween(t: Table, k: int, c: Entry)
    requires WellFormed(t) && !Has(t, k) && c in Entries(t)
    requires Below(Entries(t), k).Some? && Above(Entries(t), k).Some?
    ensures c.key <= Below(Entries(t), k).value.key || c.key >= Above(Entries(t), k).value.key
  {
    EntryOfKey(t, c);
  }

  /** The value the source computes in a gap is the interpolation of `findMappedLine`. */
  lemma GapValueInterpolates(p: Entry, n: Entry, k: int)
    requires Close(p, n) && p.key < k < n.key
    ensures GapValue(p, n, k - p.key) == Interpolate(k, p, n)
  {
    var j := k - p.key;
    RoundShift(j * (n.value - p.value), n.key - p.key, p.value);
  }

  /** Rounding commutes with adding a whole number of units. */
  lemma RoundShift(a: int, d: int, c: int)
    requires d > 0
    ensures RoundHalfUp(c * d + a, d) == c + RoundHalfUp(a, d)
  {
    assert 2 * (c * d + a) + d == (2 * a + d) + (2 * d) * c;
    DivShift(2 * a + d, 2 * d, c);
  }
}
