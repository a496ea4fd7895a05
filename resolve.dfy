/**
 * Resolving one line through a table: JSP line to servlet line
 * (`findMappedLine`) and servlet line to JSP line (`findReverseMappedLine`).
 */
module Resolve {
  import opened Options
  import opened LineTables

  // ---------------------------------------------------------------------
  // Rounding
  // ---------------------------------------------------------------------

  /**
   * `Math.round(num / den)` on the exact rational: the nearest integer, a
   * half rounded up (toward +infinity, as `Math.round` does for negatives too).
   */
  function RoundHalfUp(num: int, den: int): (r: int)
    requires den > 0
    ensures 2 * den * r <= 2 * num + den < 2 * den * r + 2 * den
  {
    (2 * num + den) / (2 * den)
  }

  lemma MulLess(c: int, a: int, b: int)
    requires c > 0 && c * a < c * b
    ensures a < b
  {
  }

  /** A rounded quotient stays within any integer bounds of the exact quotient. */
  lemma RoundWithin(num: int, den: int, lo: int, hi: int)
    requires den > 0 && den * lo <= num <= den * hi
    ensures lo <= RoundHalfUp(num, den) <= hi
  {
    var d2 := 2 * den;
    var x := 2 * num + den;
    var r := RoundHalfUp(num, den);
    assert d2 * r <= x < d2 * r + d2;
    assert d2 * (hi + 1) == 2 * (den * hi) + d2;
    MulLess(d2, r, hi + 1);
    assert d2 * lo == 2 * (den * lo);
    assert d2 * (r + 1) == d2 * r + d2;
    MulLess(d2, lo, r + 1);
  }

  /** `previousServletLine + Math.round(jspOffset / jspRange * servletRange)`. */
  function Interpolate(q: int, p: Entry, n: Entry): int
    requires p.key < n.key
  {
    p.value + RoundHalfUp((q - p.key) * (n.value - p.value), n.key - p.key)
  }

  // ---------------------------------------------------------------------
  // JSP line to servlet line
  // ---------------------------------------------------------------------

  /**
   * `findMappedLine`: the stored value for `q`; otherwise interpolation between
   * the greatest key below `q` and the least key above it; otherwise the 1:1
   * offset from the greatest key below; otherwise nothing.
   */
  function Forward(t: Table, q: int): Option<int> {
    if Has(t, q) then Some(Get(t, q))
    else FromNeighbours(q, Below(Entries(t), q), Above(Entries(t), q))
  }

  /** The answer of `findMappedLine` from the closest keys on either side of `q`. */
  function FromNeighbours(q: int, prev: Option<Entry>, next: Option<Entry>): Option<int>
    requires prev.Some? ==> prev.value.key <= q
    requires next.Some? ==> q <= next.value.key
  {
    if prev.Some? && next.Some? && next.value.key != prev.value.key then
      Some(Interpolate(q, prev.value, next.value))
    else if prev.Some? then Some(prev.value.value + (q - prev.value.key))
    else None
  }

  /**
   * The loop of `findMappedLine` over `entries()`. The sentinels `-1` and
   * `Infinity` of the source are `None` here: every key is a natural number,
   * so `key > -1` always holds.
   */
  method FindMappedLine(t: Table, q: int) returns (r: Option<int>)
    ensures r == Forward(t, q)
  {
    if Has(t, q) {
      return Some(Get(t, q));
    }
    var previous, next := ClosestEntries(Entries(t), q);
    assert Forward(t, q) == FromNeighbours(q, previous, next);
    if previous.Some? && next.Some? && next.value.key != previous.value.key {
      return Some(Interpolate(q, previous.value, next.value));
    }
    if previous.Some? {
      var offset := q - previous.value.key;
      return Some(previous.value.value + offset);
    }
    return None;
  }

  /** The pass over `entries()` keeping the closest key on each side of `q`. */
  method ClosestEntries(es: seq<Entry>, q: int) returns (previous: Option<Entry>, next: Option<Entry>)
    ensures previous == Below(es, q) && next == Above(es, q)
  {
    previous, next := None, None;
    for i := 0 to |es|
      invariant previous == Below(es[..i], q)
      invariant next == Above(es[..i], q)
    {
      var e := es[i];
      BelowAboveStep(es, i, q);
      if e.key <= q && (previous.None? || e.key > previous.value.key) {
        previous := Some(e);
      }
      if e.key >= q && (next.None? || e.key < next.value.key) {
        next := Some(e);
      }
    }
    assert es[..|es|] == es;
  }

  /** One more entry for the two passes of the loop. */
  lemma BelowAboveStep(s: seq<Entry>, i: nat, q: int)
    requires i < |s|
    ensures var r := Below(s[..i], q);
      Below(s[..i + 1], q) == if s[i].key <= q && (r.None? || s[i].key > r.value.key) then Some(s[i]) else r
    ensures var r := Above(s[..i], q);
      Above(s[..i + 1], q) == if s[i].key >= q && (r.None? || s[i].key < r.value.key) then Some(s[i]) else r
  {
    assert s[..i + 1][..i] == s[..i];
  }

  /** An entry of a well-formed table is a stored key with its value. */
  lemma EntryIn(t: Table, e: Entry)
    requires WellFormed(t) && e in Entries(t)
    ensures Has(t, e.key) && e.value == Get(t, e.key)
  {
    var i :| 0 <= i < |Entries(t)| && Entries(t)[i] == e;
    assert t.order[i] in t.order;
  }

  /** The entry `Below` picks is the greatest stored key `<= q`. */
  lemma BelowIs(t: Table, q: int, p: int)
    requires WellFormed(t) && Has(t, p) && p <= q
    requires forall k :: Has(t, k) && k <= q ==> k <= p
    ensures Below(Entries(t), q) == Some(Entry(p as nat, Get(t, p)))
  {
    EntriesComplete(t, p);
    var b := Below(Entries(t), q).value;
    EntryIn(t, b);
  }

  /** The entry `Above` picks is the least stored key `>= q`. */
  lemma AboveIs(t: Table, q: int, n: int)
    requires WellFormed(t) && Has(t, n) && n >= q
    requires forall k :: Has(t, k) && k >= q ==> k >= n
    ensures Above(Entries(t), q) == Some(Entry(n as nat, Get(t, n)))
  {
    EntriesComplete(t, n);
    var b := Above(Entries(t), q).value;
    EntryIn(t, b);
  }

  /** Nothing is found exactly when no key is `<= q`. */
  lemma ForwardNone(t: Table, q: int)
    requires WellFormed(t)
    ensures Forward(t, q).None? <==> forall k :: Has(t, k) ==> k > q
  {
    if Forward(t, q).None? {
      forall k | Has(t, k) ensures k > q {
        EntriesComplete(t, k);
      }
    } else if Below(Entries(t), q).Some? {
      EntryIn(t, Below(Entries(t), q).value);
    }
  }

  /**
   * Between two stored keys `p < q < n` with nothing stored strictly between,
   * the result is `map[p] + round((q - p) * (map[n] - map[p]) / (n - p))`, and
   * it lies between `map[p]` and `map[n]`.
   */
  lemma ForwardInterpolates(t: Table, q: int, p: int, n: int)
    requires WellFormed(t) && Has(t, p) && Has(t, n) && p < q < n
    requires forall k :: Has(t, k) && p < k < n ==> false
    ensures Forward(t, q) == Some(Interpolate(q, Entry(p as nat, Get(t, p)), Entry(n as nat, Get(t, n))))
    ensures var r := Forward(t, q).value;
      (Get(t, p) <= r <= Get(t, n)) || (Get(t, n) <= r <= Get(t, p))
  {
    var pe := Entry(p as nat, Get(t, p));
    var ne := Entry(n as nat, Get(t, n));
    BelowIs(t, q, p);
    AboveIs(t, q, n);
    InterpolationBetween(q, pe, ne);
  }

  /** Interpolating at a point strictly between two keys lands between their values. */
  lemma InterpolationBetween(q: int, p: Entry, n: Entry)
    requires p.key < q < n.key
    ensures var r := Interpolate(q, p, n);
      (p.value <= r <= n.value) || (n.value <= r <= p.value)
  {
    var off := q - p.key;
    var range := n.key - p.key;
    var a: int := p.value;
    var b: int := n.value;
    var d := b - a;
    if d >= 0 {
      MulBetween(off, range, d);
      RoundWithin(off * d, range, 0, d);
    } else {
      MulBetween(off, range, -d);
      assert off * d == -(off * (-d)) && range * d == -(range * (-d));
      RoundWithin(off * d, range, d, 0);
    }
  }

  lemma MulBetween(x: int, y: int, d: int)
    requires 0 <= x <= y && d >= 0
    ensures 0 <= x * d <= y * d && y * 0 == 0
  {
    assert (y - x) * d >= 0;
  }

  /** Past the last stored key, the result is the 1:1 offset from the greatest key below. */
  lemma ForwardExtrapolates(t: Table, q: int, p: int)
    requires WellFormed(t) && Has(t, p) && p < q
    requires forall k :: Has(t, k) ==> k <= p
    ensures Forward(t, q) == Some(Get(t, p) + (q - p))
  {
    var e := Entry(p as nat, Get(t, p));
    assert FromNeighbours(q, Some(e), None) == Some(Get(t, p) + (q - p));
    assert !Has(t, q);
    BelowIs(t, q, p);
    AboveNone(t, q);
  }

  /** No entry is picked above `q` when every key is below it. */
  lemma AboveNone(t: Table, q: int)
    requires WellFormed(t) && forall k :: Has(t, k) ==> k < q
    ensures Above(Entries(t), q).None?
  {
    if Above(Entries(t), q).Some? {
      EntryIn(t, Above(Entries(t), q).value);
    }
  }

  /** Every answer is a non-negative servlet line. */
  lemma ForwardNonNegative(t: Table, q: int)
    requires Forward(t, q).Some?
    ensures Forward(t, q).value >= 0
  {
    if !Has(t, q) {
      var prev := Below(Entries(t), q);
      var next := Above(Entries(t), q);
      if next.Some? && next.value.key != prev.value.key {
        InterpolationBetween(q, prev.value, next.value);
      }
    }
  }
}
