/**
 * The `Map<number, number>` tables the extension builds: JSP line to servlet
 * line (and, for reverse lookups, servlet line to JSP line).
 *
 * A JavaScript `Map` remembers insertion order: `set` on a new key appends an
 * entry, `set` on a present key replaces its value where it stands. The order
 * matters where the source iterates over `entries()` and sorts stably.
 * Every table the source builds holds non-negative line numbers (they come
 * from `parseInt` of `\d+`, from 1-based line indices, or from rounding such
 * numbers), so keys and values are `nat`.
 */
module LineTables {
  import opened Options

  datatype Entry = Entry(key: nat, value: nat)

  /**
   * Keys in insertion order, and the value stored under each key. Every
   * table the model builds is `WellFormed` (`SetWellFormed`).
   */
  datatype Table = Table(order: seq<nat>, values: map<nat, nat>)

  /** Every key once in `order`, and exactly the keys of `values`. */
  ghost predicate WellFormed(t: Table) {
    && (forall i, j :: 0 <= i < j < |t.order| ==> t.order[i] != t.order[j])
    && (forall k :: k in t.order <==> k in t.values)
  }

  const Empty := Table([], map[])

  /** `map.has(k)`. */
  predicate Has(t: Table, k: int) {
    k >= 0 && k as nat in t.values
  }

  /** `map.get(k)` for a present key. */
  function Get(t: Table, k: int): nat
    requires Has(t, k)
  {
    t.values[k as nat]
  }

  /** `map.size`. */
  function Size(t: Table): nat {
    |t.order|
  }

  /**
   * `map.set(k, v)`: afterwards `k` maps to `v`, every other key keeps its
   * value, a present key keeps its place in the order and a new key goes last.
   */
  function Set(t: Table, k: nat, v: nat): (r: Table)
    ensures Has(r, k) && Get(r, k) == v
    ensures forall k' :: k' != k ==> (Has(r, k') <==> Has(t, k'))
    ensures forall k' :: k' != k && Has(t, k') ==> Get(r, k') == Get(t, k')
    ensures r.order == if Has(t, k) && k in t.order then t.order else t.order + [k]
  {
    if k in t.values && k in t.order then t.(values := t.values[k := v])
    else Table(t.order + [k], t.values[k := v])
  }

  lemma SetWellFormed(t: Table, k: nat, v: nat)
    requires WellFormed(t)
    ensures WellFormed(Set(t, k, v))
  {
    if k !in t.values {
      var order := t.order + [k];
      assert forall x :: x in order <==> x in t.order || x == k;
    }
  }

  /** A new key makes the table one entry longer. */
  lemma SetNewKey(t: Table, k: nat, v: nat)
    requires WellFormed(t) && !Has(t, k)
    ensures WellFormed(Set(t, k, v)) && Size(Set(t, k, v)) == Size(t) + 1
  {
    SetWellFormed(t, k, v);
    assert k !in t.order;
  }

  /** `map.entries()`, in insertion order. */
  function Entries(t: Table): (es: seq<Entry>)
    ensures |es| == Size(t)
    ensures forall i :: 0 <= i < |es| ==> es[i].key == t.order[i]
    ensures forall i :: 0 <= i < |es| && Has(t, es[i].key) ==> es[i].value == Get(t, es[i].key)
  {
    seq(|t.order|, i requires 0 <= i < |t.order| =>
      Entry(t.order[i], if t.order[i] in t.values then t.values[t.order[i]] else 0))
  }

  /** In a well-formed table every key appears in the entries, with its value, and no other key does. */
  lemma EntriesComplete(t: Table, k: int)
    requires WellFormed(t)
    ensures Has(t, k) <==> exists i :: 0 <= i < |Entries(t)| && Entries(t)[i].key == k
    ensures Has(t, k) ==> Entry(k as nat, Get(t, k)) in Entries(t)
  {
    if Has(t, k) {
      var i :| 0 <= i < |t.order| && t.order[i] == k;
      assert Entries(t)[i] == Entry(k as nat, Get(t, k));
    }
  }

  /** The keys of the entries are distinct. */
  ghost predicate DistinctKeys(s: seq<Entry>) {
    forall i, j :: 0 <= i < j < |s| ==> s[i].key != s[j].key
  }

  lemma EntriesDistinct(t: Table)
    requires WellFormed(t)
    ensures DistinctKeys(Entries(t))
  {
  }

  // ---------------------------------------------------------------------
  // The one "closest key" search the source repeats in several helpers:
  // a pass over the entries keeping the greatest key not above a target
  // (and, for interpolation, the least key not below it).
  // ---------------------------------------------------------------------

  /** The entry with the greatest key `<= q`, found by a left-to-right pass with strict `>`. */
  function Below(t: seq<Entry>, q: int): (r: Option<Entry>)
    ensures r.Some? ==> r.value in t && r.value.key <= q
    ensures r.Some? ==> forall e :: e in t && e.key <= q ==> e.key <= r.value.key
    ensures r.None? <==> forall e :: e in t ==> e.key > q
  {
    if t == [] then None
    else
      var r := Below(t[..|t| - 1], q);
      var e := t[|t| - 1];
      assert t == t[..|t| - 1] + [e];
      if e.key <= q && (r.None? || e.key > r.value.key) then Some(e) else r
  }

  /** The entry with the least key `>= q`, found by a left-to-right pass with strict `<`. */
  function Above(t: seq<Entry>, q: int): (r: Option<Entry>)
    ensures r.Some? ==> r.value in t && r.value.key >= q
    ensures r.Some? ==> forall e :: e in t && e.key >= q ==> e.key >= r.value.key
    ensures r.None? <==> forall e :: e in t ==> e.key < q
  {
    if t == [] then None
    else
      var r := Above(t[..|t| - 1], q);
      var e := t[|t| - 1];
      assert t == t[..|t| - 1] + [e];
      if e.key >= q && (r.None? || e.key < r.value.key) then Some(e) else r
  }

  // ---------------------------------------------------------------------
  // Array.prototype.sort with a numeric comparator: a stable sort, modelled
  // as insertion sort that places each element after all elements of equal
  // rank.
  // ---------------------------------------------------------------------

  /** Sort by servlet line (`value`) or by JSP line (`key`). */
  function Rank(e: Entry, byValue: bool): nat {
    if byValue then e.value else e.key
  }

  ghost predicate SortedBy(s: seq<Entry>, byValue: bool) {
    forall i, j :: 0 <= i < j < |s| ==> Rank(s[i], byValue) <= Rank(s[j], byValue)
  }

  /** Every element ranks at least `m`. */
  ghost predicate AllAtLeast(s: seq<Entry>, m: nat, byValue: bool) {
    forall x :: x in s ==> Rank(x, byValue) >= m
  }

  /** No element has key `k`. */
  ghost predicate KeyAbsent(s: seq<Entry>, k: nat) {
    forall x :: x in s ==> x.key != k
  }

  lemma ConsSorted(x: Entry, s: seq<Entry>, byValue: bool)
    requires SortedBy(s, byValue) && AllAtLeast(s, Rank(x, byValue), byValue)
    ensures SortedBy([x] + s, byValue)
  {
    var r := [x] + s;
    forall i, j | 0 <= i < j < |r| ensures Rank(r[i], byValue) <= Rank(r[j], byValue) {
      assert r[j] == s[j - 1];
      if i > 0 {
        assert r[i] == s[i - 1];
      } else {
        assert s[j - 1] in s;
      }
    }
  }

  lemma ConsDistinct(x: Entry, s: seq<Entry>)
    requires DistinctKeys(s) && KeyAbsent(s, x.key)
    ensures DistinctKeys([x] + s)
  {
    var r := [x] + s;
    forall i, j | 0 <= i < j < |r| ensures r[i].key != r[j].key {
      assert r[j] == s[j - 1];
      if i > 0 {
        assert r[i] == s[i - 1];
      } else {
        assert s[j - 1] in s;
      }
    }
  }

  /** Insert `e` after every element of rank `<= Rank(e)` that leads `s`. */
  function Insert(s: seq<Entry>, e: Entry, byValue: bool): (r: seq<Entry>)
    ensures multiset(r) == multiset(s) + multiset{e}
  {
    if s == [] then [e]
    else if Rank(e, byValue) < Rank(s[0], byValue) then [e] + s
    else
      assert s == [s[0]] + s[1..];
      [s[0]] + Insert(s[1..], e, byValue)
  }

  lemma InsertMembers(s: seq<Entry>, e: Entry, byValue: bool, x: Entry)
    requires x in Insert(s, e, byValue)
    ensures x in s || x == e
  {
    assert x in multiset(Insert(s, e, byValue));
  }

  lemma {:induction false} InsertSorted(s: seq<Entry>, e: Entry, byValue: bool)
    requires SortedBy(s, byValue)
    ensures SortedBy(Insert(s, e, byValue), byValue)
  {
    if s == [] {
    } else if Rank(e, byValue) < Rank(s[0], byValue) {
      forall x | x in s ensures Rank(x, byValue) >= Rank(e, byValue) {
        var i :| 0 <= i < |s| && s[i] == x;
        assert i == 0 || Rank(s[0], byValue) <= Rank(s[i], byValue);
      }
      ConsSorted(e, s, byValue);
    } else {
      var rest := Insert(s[1..], e, byValue);
      InsertSorted(s[1..], e, byValue);
      forall x | x in rest ensures Rank(x, byValue) >= Rank(s[0], byValue) {
        InsertMembers(s[1..], e, byValue, x);
        if x in s[1..] {
          var i :| 0 <= i < |s[1..]| && s[1..][i] == x;
          assert s[i + 1] == x;
        }
      }
      ConsSorted(s[0], rest, byValue);
    }
  }

  lemma {:induction false} InsertDistinct(s: seq<Entry>, e: Entry, byValue: bool)
    requires DistinctKeys(s) && KeyAbsent(s, e.key)
    ensures DistinctKeys(Insert(s, e, byValue))
  {
    if s == [] {
    } else if Rank(e, byValue) < Rank(s[0], byValue) {
      ConsDistinct(e, s);
    } else {
      var tail := s[1..];
      var rest := Insert(tail, e, byValue);
      DistinctTail(s);
      assert KeyAbsent(tail, e.key) by {
        forall x | x in tail ensures x.key != e.key {
          assert x in s;
        }
      }
      InsertDistinct(tail, e, byValue);
      assert s[0] in s;
      InsertKeyAbsent(tail, e, byValue, s[0].key);
      ConsDistinct(s[0], rest);
      InsertCons(s, e, byValue);
    }
  }

  lemma DistinctTail(s: seq<Entry>)
    requires s != [] && DistinctKeys(s)
    ensures DistinctKeys(s[1..]) && KeyAbsent(s[1..], s[0].key)
  {
    var tail := s[1..];
    forall i, j | 0 <= i < j < |tail| ensures tail[i].key != tail[j].key {
      assert tail[i] == s[i + 1] && tail[j] == s[j + 1];
    }
    forall x | x in tail ensures x.key != s[0].key {
      var i :| 0 <= i < |tail| && tail[i] == x;
      assert s[i + 1] == x;
    }
  }

  lemma InsertKeyAbsent(s: seq<Entry>, e: Entry, byValue: bool, k: nat)
    requires KeyAbsent(s, k) && e.key != k
    ensures KeyAbsent(Insert(s, e, byValue), k)
  {
    forall x | x in Insert(s, e, byValue) ensures x.key != k {
      InsertMembers(s, e, byValue, x);
    }
  }

  /** `list.sort((a, b) => rank(a) - rank(b))`: a permutation of `s`, sorted by rank. */
  function SortBy(s: seq<Entry>, byValue: bool): (r: seq<Entry>)
    ensures multiset(r) == multiset(s)
    ensures SortedBy(r, byValue)
  {
    if s == [] then []
    else
      var init := s[..|s| - 1];
      assert s == init + [s[|s| - 1]];
      var sorted := SortBy(init, byValue);
      InsertSorted(sorted, s[|s| - 1], byValue);
      Insert(sorted, s[|s| - 1], byValue)
  }

  /** Sorting keeps keys distinct. */
  lemma {:induction false} SortByDistinct(s: seq<Entry>, byValue: bool)
    requires DistinctKeys(s)
    ensures DistinctKeys(SortBy(s, byValue))
  {
    if s != [] {
      var init := s[..|s| - 1];
      var last := s[|s| - 1];
      assert s == init + [last];
      SortByDistinct(init, byValue);
      var sorted := SortBy(init, byValue);
      forall x | x in sorted ensures x.key != last.key {
        assert x in multiset(sorted);
        var i :| 0 <= i < |init| && init[i] == x;
        assert s[i] == x;
      }
      InsertDistinct(sorted, last, byValue);
    }
  }

  /** The elements of rank `v`, in their order in `s`. */
  function RankFilter(s: seq<Entry>, byValue: bool, v: nat): seq<Entry>
  {
    if s == [] then []
    else (if Rank(s[0], byValue) == v then [s[0]] else []) + RankFilter(s[1..], byValue, v)
  }

  lemma {:induction false} RankFilterAppend(a: seq<Entry>, b: seq<Entry>, byValue: bool, v: nat)
    ensures RankFilter(a + b, byValue, v) == RankFilter(a, byValue, v) + RankFilter(b, byValue, v)
  {
    if a == [] {
      assert a + b == b;
    } else {
      var head := if Rank(a[0], byValue) == v then [a[0]] else [];
      assert (a + b)[0] == a[0];
      assert (a + b)[1..] == a[1..] + b;
      RankFilterAppend(a[1..], b, byValue, v);
      calc {
        RankFilter(a + b, byValue, v);
        head + RankFilter(a[1..] + b, byValue, v);
        head + (RankFilter(a[1..], byValue, v) + RankFilter(b, byValue, v));
        (head + RankFilter(a[1..], byValue, v)) + RankFilter(b, byValue, v);
      }
    }
  }

  lemma {:induction false} RankFilterNone(s: seq<Entry>, byValue: bool, v: nat)
    requires forall i :: 0 <= i < |s| ==> Rank(s[i], byValue) != v
    ensures RankFilter(s, byValue, v) == []
  {
    if s != [] {
      RankFilterNone(s[1..], byValue, v);
    }
  }

  lemma SortedTail(s: seq<Entry>, byValue: bool)
    requires s != [] && SortedBy(s, byValue)
    ensures SortedBy(s[1..], byValue)
  {
    forall i, j | 0 <= i < j < |s| - 1 ensures Rank(s[1..][i], byValue) <= Rank(s[1..][j], byValue) {
      assert s[1..][i] == s[i + 1] && s[1..][j] == s[j + 1];
    }
  }

  lemma {:induction false} InsertStable(s: seq<Entry>, e: Entry, byValue: bool, v: nat)
    requires SortedBy(s, byValue)
    ensures RankFilter(Insert(s, e, byValue), byValue, v)
         == RankFilter(s, byValue, v) + (if Rank(e, byValue) == v then [e] else [])
  {
    var tail := if Rank(e, byValue) == v then [e] else [];
    if s == [] {
      assert RankFilter([e], byValue, v) == tail by {
        assert [e][1..] == [];
      }
    } else if Rank(e, byValue) < Rank(s[0], byValue) {
      InsertBeforeStable(s, e, byValue, v);
    } else {
      SortedTail(s, byValue);
      InsertStable(s[1..], e, byValue, v);
      InsertAfterStable(s, e, byValue, v);
    }
  }

  /** The step of `InsertStable` past a leading element of rank `<= Rank(e)`. */
  lemma InsertAfterStable(s: seq<Entry>, e: Entry, byValue: bool, v: nat)
    requires s != [] && Rank(s[0], byValue) <= Rank(e, byValue)
    requires RankFilter(Insert(s[1..], e, byValue), byValue, v)
          == RankFilter(s[1..], byValue, v) + (if Rank(e, byValue) == v then [e] else [])
    ensures RankFilter(Insert(s, e, byValue), byValue, v)
         == RankFilter(s, byValue, v) + (if Rank(e, byValue) == v then [e] else [])
  {
    var tail := if Rank(e, byValue) == v then [e] else [];
    var head := if Rank(s[0], byValue) == v then [s[0]] else [];
    var rest := Insert(s[1..], e, byValue);
    calc {
      RankFilter(Insert(s, e, byValue), byValue, v);
      { InsertCons(s, e, byValue); }
      RankFilter([s[0]] + rest, byValue, v);
      { RankFilterCons(s[0], rest, byValue, v); }
      head + RankFilter(rest, byValue, v);
      head + (RankFilter(s[1..], byValue, v) + tail);
      { SeqAssoc(head, RankFilter(s[1..], byValue, v), tail); }
      (head + RankFilter(s[1..], byValue, v)) + tail;
      { RankFilterCons(s[0], s[1..], byValue, v); assert [s[0]] + s[1..] == s; }
      RankFilter(s, byValue, v) + tail;
    }
  }

  lemma SeqAssoc(a: seq<Entry>, b: seq<Entry>, c: seq<Entry>)
    ensures a + (b + c) == (a + b) + c
  {
  }

  lemma InsertCons(s: seq<Entry>, e: Entry, byValue: bool)
    requires s != [] && Rank(s[0], byValue) <= Rank(e, byValue)
    ensures Insert(s, e, byValue) == [s[0]] + Insert(s[1..], e, byValue)
  {
  }

  lemma RankFilterCons(x: Entry, s: seq<Entry>, byValue: bool, v: nat)
    ensures RankFilter([x] + s, byValue, v) == (if Rank(x, byValue) == v then [x] else []) + RankFilter(s, byValue, v)
  {
    assert ([x] + s)[0] == x && ([x] + s)[1..] == s;
  }

  /** Inserting in front of a sorted run whose ranks all exceed the new element's. */
  lemma InsertBeforeStable(s: seq<Entry>, e: Entry, byValue: bool, v: nat)
    requires s != [] && SortedBy(s, byValue) && Rank(e, byValue) < Rank(s[0], byValue)
    ensures RankFilter([e] + s, byValue, v)
         == RankFilter(s, byValue, v) + (if Rank(e, byValue) == v then [e] else [])
  {
    var r := [e] + s;
    assert r[0] == e && r[1..] == s;
    if Rank(e, byValue) == v {
      assert forall i :: 0 <= i < |s| ==> Rank(s[i], byValue) != v by {
        forall i | 0 <= i < |s| ensures Rank(s[i], byValue) != v {
          assert i == 0 || Rank(s[0], byValue) <= Rank(s[i], byValue);
        }
      }
      RankFilterNone(s, byValue, v);
      assert RankFilter(r, byValue, v) == [e] + RankFilter(s, byValue, v);
    }
  }

  lemma SortBySnoc(s: seq<Entry>, byValue: bool)
    requires s != []
    ensures SortBy(s, byValue) == Insert(SortBy(s[..|s| - 1], byValue), s[|s| - 1], byValue)
  {
  }

  /** The sort is stable: elements of equal rank keep their relative order. */
  lemma {:induction false} SortStable(s: seq<Entry>, byValue: bool, v: nat)
    ensures RankFilter(SortBy(s, byValue), byValue, v) == RankFilter(s, byValue, v)
  {
    if s != [] {
      var init := s[..|s| - 1];
      var last := s[|s| - 1];
      var tail := if Rank(last, byValue) == v then [last] else [];
      assert RankFilter([last], byValue, v) == tail by {
        assert [last][1..] == [];
      }
      calc {
        RankFilter(SortBy(s, byValue), byValue, v);
        { SortBySnoc(s, byValue); }
        RankFilter(Insert(SortBy(init, byValue), last, byValue), byValue, v);
        { InsertStable(SortBy(init, byValue), last, byValue, v); }
        RankFilter(SortBy(init, byValue), byValue, v) + tail;
        { SortStable(init, byValue, v); }
        RankFilter(init, byValue, v) + tail;
        { RankFilterAppend(init, [last], byValue, v); }
        RankFilter(init + [last], byValue, v);
        { assert s == init + [last]; }
        RankFilter(s, byValue, v);
      }
    }
  }

  /** The last element of rank `v` in `s` is the last element of `RankFilter(s, v)`. */
  lemma {:induction false} RankFilterLast(s: seq<Entry>, byValue: bool, v: nat, j: nat)
    requires j < |s| && Rank(s[j], byValue) == v
    requires forall k :: j < k < |s| ==> Rank(s[k], byValue) != v
    ensures RankFilter(s, byValue, v) != []
    ensures RankFilter(s, byValue, v)[|RankFilter(s, byValue, v)| - 1] == s[j]
  {
    assert s == s[..j] + [s[j]] + s[j + 1..];
    RankFilterAppend(s[..j] + [s[j]], s[j + 1..], byValue, v);
    RankFilterAppend(s[..j], [s[j]], byValue, v);
    RankFilterNone(s[j + 1..], byValue, v);
    assert [s[j]][1..] == [];
  }
}
