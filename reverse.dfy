/**
 * Servlet line to JSP line through an SMAP table (`findReverseMappedLine`):
 * an exact hit in the reversed table, otherwise the servlet-line range the
 * line falls into, walking the entries sorted by servlet line.
 */
module ReverseLookup {
  import opened Options
  import opened LineTables
  import opened JsMath

  /**
   * `reverseMappings`: every entry `jsp -> servlet` stored as `servlet -> jsp`,
   * in entry order, so a later entry with the same servlet line wins.
   */
  function ReverseTable(es: seq<Entry>): Table {
    if es == [] then Empty
    else
      var e := es[|es| - 1];
      Set(ReverseTable(es[..|es| - 1]), e.value, e.key)
  }

  /** The walk starts a range at entry `i`: `[s[i], s[i + 1])`, or everything from the last one. */
  predicate Brackets(s: seq<Entry>, g: int, i: nat)
    requires i < |s|
  {
    if i + 1 < |s| then s[i].value <= g < s[i + 1].value else g >= s[i].value
  }

  /**
   * The first entry, from `i` on, whose range holds `g`, translated by the
   * servlet offset: `current.jspLine + (servletLine - current.servletLine)`.
   */
  function Walk(s: seq<Entry>, g: int, i: nat): Option<int>
    requires i <= |s|
    decreases |s| - i
  {
    if i == |s| then None
    else if Brackets(s, g, i) then Some(s[i].key + (g - s[i].value))
    else Walk(s, g, i + 1)
  }

  /** `findReverseMappedLine` on a table of `jsp -> servlet` entries. */
  function Reverse(t: Table, g: int): Option<int> {
    ReverseEntries(Entries(t), g)
  }

  /** The same on the table's entries, in insertion order. */
  function ReverseEntries(es: seq<Entry>, g: int): Option<int> {
    var rev := ReverseTable(es);
    if Has(rev, g) then Some(Get(rev, g))
    else
      match Walk(SortBy(es, true), g, 0)
      case None => None
      case Some(j) => Some(Max(1, j))
  }

  /** The last index whose servlet line is at most `g`, or `-1`. */
  function LastAtMost(s: seq<Entry>, g: int): (r: int)
    ensures -1 <= r < |s|
    ensures r >= 0 ==> s[r].value <= g
    ensures forall k :: r < k < |s| ==> s[k].value > g
  {
    if s == [] then -1
    else if s[|s| - 1].value <= g then |s| - 1
    else LastAtMost(s[..|s| - 1], g)
  }

  // ---------------------------------------------------------------------
  // The loops of findReverseMappedLine
  // ---------------------------------------------------------------------

  method FindReverseMappedLine(t: Table, g: int) returns (r: Option<int>)
    ensures r == Reverse(t, g)
  {
    var es := Entries(t);
    var mappingList: seq<Entry> := [];
    var reverseMappings := Empty;
    for i := 0 to |es|
      invariant mappingList == es[..i]
      invariant reverseMappings == ReverseTable(es[..i])
    {
      assert es[..i + 1][..i] == es[..i];
      mappingList := mappingList + [es[i]];
      reverseMappings := Set(reverseMappings, es[i].value, es[i].key);
    }
    assert es[..|es|] == es;
    mappingList := SortBy(mappingList, true);
    if Has(reverseMappings, g) {
      return Some(Get(reverseMappings, g));
    }
    var found := ScanRanges(mappingList, g);
    if found.Some? {
      return Some(Max(1, found.value));
    }
    return None;
  }

  /** The `for` loop over the sorted list, stopping at the first range that holds `g`. */
  method ScanRanges(s: seq<Entry>, g: int) returns (found: Option<int>)
    ensures found == Walk(s, g, 0)
  {
    var i := 0;
    while i < |s|
      invariant i <= |s| && Walk(s, g, i) == Walk(s, g, 0)
      decreases |s| - i
    {
      var current := s[i];
      if i + 1 < |s| {
        var next := s[i + 1];
        if g >= current.value && g < next.value {
          var offset := g - current.value;
          return Some(current.key + offset);
        }
      } else if g >= current.value {
        var offset := g - current.value;
        return Some(current.key + offset);
      }
      i := i + 1;
    }
    return None;
  }

  // ---------------------------------------------------------------------
  // The reversed table
  // ---------------------------------------------------------------------

  /** A servlet line is in the reversed table exactly when some entry maps to it. */
  lemma {:induction false} ReverseTableHas(es: seq<Entry>, g: int)
    ensures Has(ReverseTable(es), g) <==> exists i :: 0 <= i < |es| && es[i].value == g
  {
    if es != [] {
      var init := es[..|es| - 1];
      ReverseTableHas(init, g);
      if exists i :: 0 <= i < |init| && init[i].value == g {
        var i :| 0 <= i < |init| && init[i].value == g;
        assert es[i] == init[i];
      }
      if exists i :: 0 <= i < |es| && es[i].value == g {
        var i :| 0 <= i < |es| && es[i].value == g;
        if i < |init| {
          assert init[i] == es[i];
        }
      }
    }
  }

  /** The reversed table holds, for a servlet line, the JSP line of the last entry mapping to it. */
  lemma {:induction false} ReverseTableGet(es: seq<Entry>, j: nat)
    requires j < |es|
    requires forall k :: j < k < |es| ==> es[k].value != es[j].value
    ensures Has(ReverseTable(es), es[j].value)
    ensures Get(ReverseTable(es), es[j].value) == es[j].key
  {
    var init := es[..|es| - 1];
    if j < |es| - 1 {
      assert init[j] == es[j];
      forall k | j < k < |init| ensures init[k].value != init[j].value {
        assert init[k] == es[k];
      }
      ReverseTableGet(init, j);
    }
  }

  // ---------------------------------------------------------------------
  // The walk over the sorted list
  // ---------------------------------------------------------------------

  /**
   * On a list sorted by servlet line, the walk stops at the last entry whose
   * servlet line is at most `g`.
   */
  lemma {:induction false} WalkFinds(s: seq<Entry>, g: int, j: nat, i: nat)
    requires SortedBy(s, true) && i <= j < |s|
    requires s[j].value <= g && (j + 1 == |s| || g < s[j + 1].value)
    ensures Walk(s, g, i) == Some(s[j].key + (g - s[j].value))
    decreases j - i
  {
    if i < j {
      assert Rank(s[i + 1], true) <= Rank(s[j], true);
      assert !Brackets(s, g, i);
      WalkFinds(s, g, j, i + 1);
    }
  }

  /** The walk finds nothing when every servlet line from `i` on is above `g`. */
  lemma {:induction false} WalkNone(s: seq<Entry>, g: int, i: nat)
    requires i <= |s|
    requires forall k :: i <= k < |s| ==> s[k].value > g
    ensures Walk(s, g, i) == None
    decreases |s| - i
  {
    if i < |s| {
      WalkNone(s, g, i + 1);
    }
  }

  // ---------------------------------------------------------------------
  // What findReverseMappedLine answers
  // ---------------------------------------------------------------------

  /**
   * An exact hit: the JSP line of the last entry (in insertion order) whose
   * servlet line is `g`, returned without the clamp to 1.
   */
  lemma ReverseExact(es: seq<Entry>, g: int, j: nat)
    requires j < |es| && es[j].value == g
    requires forall k :: j < k < |es| ==> es[k].value != g
    ensures ReverseEntries(es, g) == Some(es[j].key)
  {
    ReverseTableGet(es, j);
  }

  /** Nothing is found exactly when every servlet line is above `g`. */
  lemma ReverseNone(es: seq<Entry>, g: int)
    ensures ReverseEntries(es, g).None? <==> forall e :: e in es ==> e.value > g
  {
    var sorted := SortBy(es, true);
    ReverseTableHas(es, g);
    if forall e :: e in es ==> e.value > g {
      forall k | 0 <= k < |sorted| ensures sorted[k].value > g {
        assert sorted[k] in multiset(es);
      }
      WalkNone(sorted, g, 0);
    } else if !Has(ReverseTable(es), g) {
      var e :| e in es && e.value <= g;
      assert e in multiset(sorted);
      var last := LastAtMost(sorted, g);
      WalkFinds(sorted, g, last, 0);
    }
  }

  /**
   * Between servlet lines: with no entry at `g`, the answer comes from the
   * greatest servlet line below `g` — from the last entry (in insertion order)
   * carrying it, because the sort is stable — offset by the distance to `g`.
   * The clamp to 1 never binds here.
   */
  lemma ReverseRange(es: seq<Entry>, g: int, j: nat)
    requires j < |es| && es[j].value <= g
    requires forall e :: e in es ==> e.value != g
    requires forall e :: e in es && e.value <= g ==> e.value <= es[j].value
    requires forall k :: j < k < |es| ==> es[k].value != es[j].value
    ensures ReverseEntries(es, g) == Some(es[j].key + (g - es[j].value))
    ensures ReverseEntries(es, g).value >= 1
  {
    ReverseTableHas(es, g);
    assert !Has(ReverseTable(es), g) by {
      forall i | 0 <= i < |es| ensures es[i].value != g {
        assert es[i] in es;
      }
    }
    WalkPicksLast(es, g, j);
  }

  /** On the sorted list, the walk picks the entry `ReverseRange` names. */
  lemma WalkPicksLast(es: seq<Entry>, g: int, j: nat)
    requires j < |es| && es[j].value <= g
    requires forall e :: e in es && e.value <= g ==> e.value <= es[j].value
    requires forall k :: j < k < |es| ==> es[k].value != es[j].value
    ensures Walk(SortBy(es, true), g, 0) == Some(es[j].key + (g - es[j].value))
  {
    var sorted := SortBy(es, true);
    var last := LastPlace(es, g, j);
    WalkFinds(sorted, g, last, 0);
  }

  /** Where the entry `WalkPicksLast` names sits in the sorted list: last at or below `g`. */
  lemma LastPlace(es: seq<Entry>, g: int, j: nat) returns (last: nat)
    requires j < |es| && es[j].value <= g
    requires forall e :: e in es && e.value <= g ==> e.value <= es[j].value
    requires forall k :: j < k < |es| ==> es[k].value != es[j].value
    ensures last < |SortBy(es, true)| && SortBy(es, true)[last] == es[j]
    ensures last + 1 == |SortBy(es, true)| || g < SortBy(es, true)[last + 1].value
  {
    var sorted := SortBy(es, true);
    var l := LastWithValue(es, sorted, g, j);
    SortStable(es, true, es[j].value);
    SameLast(es, sorted, j, l);
    last := l;
  }

  /** In any sorted permutation, the last entry at or below `g` carries `es[j]`'s servlet line. */
  lemma LastWithValue(es: seq<Entry>, sorted: seq<Entry>, g: int, j: nat) returns (l: nat)
    requires multiset(sorted) == multiset(es) && SortedBy(sorted, true)
    requires j < |es| && es[j].value <= g
    requires forall e :: e in es && e.value <= g ==> e.value <= es[j].value
    ensures l == LastAtMost(sorted, g) && l < |sorted| && sorted[l].value == es[j].value
  {
    assert es[j] in multiset(sorted);
    var m :| 0 <= m < |sorted| && sorted[m] == es[j];
    l := LastAtMost(sorted, g);
    assert sorted[l] in multiset(es);
    assert Rank(sorted[m], true) <= Rank(sorted[l], true);
  }

  /**
   * The last entry of a servlet line in the sorted list is the last one
   * carrying it in the original list (stability of the sort).
   */
  lemma SameLast(es: seq<Entry>, sorted: seq<Entry>, j: nat, last: nat)
    requires j < |es| && last < |sorted| && sorted[last].value == es[j].value
    requires RankFilter(sorted, true, es[j].value) == RankFilter(es, true, es[j].value)
    requires forall k :: j < k < |es| ==> es[k].value != es[j].value
    requires forall k :: last < k < |sorted| ==> sorted[k].value != es[j].value
    ensures sorted[last] == es[j]
  {
    var v := es[j].value;
    RankFilterLast(sorted, true, v, last);
    RankFilterLast(es, true, v, j);
  }
}
