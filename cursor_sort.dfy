/**
 * `toSorted` with the cursor's comparator (lib/loki/LokiCursor.mjs, `sort`): a stable
 * sort, given here as insertion: each document, from the last to the first, is inserted
 * into the already sorted rest, before the first document it does not compare greater than.
 */
module CursorSort {
  import opened CursorOrder

  /** Every document is ordered before or equal to every later one. */
  predicate SortedBy(keys: seq<SortKey>, s: seq<Document>)
  {
    forall i, j :: 0 <= i < j < |s| ==> Compare(keys, s[i], s[j]) <= 0
  }

  function Insert(keys: seq<SortKey>, x: Document, t: seq<Document>): (r: seq<Document>)
    ensures multiset(r) == multiset(t) + multiset{x}
  {
    if t == [] then [x]
    else if Compare(keys, x, t[0]) <= 0 then [x] + t
    else
      assert t == [t[0]] + t[1..];
      [t[0]] + Insert(keys, x, t[1..])
  }

  /** The data of the cursor `sort(columns)` returns; a permutation of its input. */
  function SortBy(keys: seq<SortKey>, s: seq<Document>): (r: seq<Document>)
    ensures multiset(r) == multiset(s)
  {
    if s == [] then []
    else
      assert s == [s[0]] + s[1..];
      Insert(keys, s[0], SortBy(keys, s[1..]))
  }

  /** The documents of `s` that tie with `d` on every key, in their order in `s`. */
  function Ties(keys: seq<SortKey>, s: seq<Document>, d: Document): seq<Document>
  {
    if s == [] then []
    else (if Compare(keys, s[0], d) == 0 then [s[0]] else []) + Ties(keys, s[1..], d)
  }

  /** Every document of `s` conforms to `kinds`. */
  predicate AllConform(keys: seq<SortKey>, kinds: seq<Kind>, s: seq<Document>)
  {
    forall d :: d in s ==> Conforms(keys, kinds, d)
  }

  lemma AllConformSub(keys: seq<SortKey>, kinds: seq<Kind>, s: seq<Document>, t: seq<Document>)
    requires AllConform(keys, kinds, s) && multiset(t) <= multiset(s)
    ensures AllConform(keys, kinds, t)
  {
    forall d | d in t ensures Conforms(keys, kinds, d) {
      assert d in multiset(t);
    }
  }

  lemma AllConformTail(keys: seq<SortKey>, kinds: seq<Kind>, t: seq<Document>)
    requires t != [] && AllConform(keys, kinds, t)
    ensures Conforms(keys, kinds, t[0]) && AllConform(keys, kinds, t[1..])
  {
    assert t[0] in t;
    forall d | d in t[1..] ensures d in t {
      var j :| 0 <= j < |t[1..]| && t[1..][j] == d;
      assert t[j + 1] == d;
    }
  }

  lemma SortByLength(keys: seq<SortKey>, s: seq<Document>)
    ensures |SortBy(keys, s)| == |s|
  {
    assert |multiset(SortBy(keys, s))| == |multiset(s)|;
  }

  lemma InsertSortedFront(keys: seq<SortKey>, kinds: seq<Kind>, x: Document, t: seq<Document>)
    requires SortedBy(keys, t) && AllConform(keys, kinds, t) && Conforms(keys, kinds, x)
    requires t != [] && Compare(keys, x, t[0]) <= 0
    ensures SortedBy(keys, [x] + t)
  {
    var r := [x] + t;
    forall i, j | 0 <= i < j < |r| ensures Compare(keys, r[i], r[j]) <= 0 {
      if i == 0 && j > 1 {
        assert r[j] == t[j - 1] && t[0] in t && t[j - 1] in t;
        ConformingTransitive(keys, kinds, x, t[0], t[j - 1]);
      } else if i > 0 {
        assert r[i] == t[i - 1] && r[j] == t[j - 1];
      }
    }
  }

  lemma SortedCons(keys: seq<SortKey>, y: Document, rest: seq<Document>)
    requires SortedBy(keys, rest)
    requires forall z :: z in rest ==> Compare(keys, y, z) <= 0
    ensures SortedBy(keys, [y] + rest)
  {
    var r := [y] + rest;
    forall i, j | 0 <= i < j < |r| ensures Compare(keys, r[i], r[j]) <= 0 {
      if i == 0 {
        assert r[j] == rest[j - 1] && rest[j - 1] in rest;
      } else {
        assert r[i] == rest[i - 1] && r[j] == rest[j - 1];
      }
    }
  }

  lemma {:induction false} InsertSorted(keys: seq<SortKey>, kinds: seq<Kind>, x: Document, t: seq<Document>)
    requires SortedBy(keys, t) && AllConform(keys, kinds, t) && Conforms(keys, kinds, x)
    ensures SortedBy(keys, Insert(keys, x, t))
  {
    if t == [] {
    } else if Compare(keys, x, t[0]) <= 0 {
      InsertSortedFront(keys, kinds, x, t);
    } else {
      var rest := Insert(keys, x, t[1..]);
      AllConformTail(keys, kinds, t);
      assert SortedBy(keys, t[1..]) by {
        forall i, j | 0 <= i < j < |t[1..]| ensures Compare(keys, t[1..][i], t[1..][j]) <= 0 {
          assert t[1..][i] == t[i + 1] && t[1..][j] == t[j + 1];
        }
      }
      InsertSorted(keys, kinds, x, t[1..]);
      CompareAntisymmetric(keys, x, t[0]);
      forall y | y in rest ensures Compare(keys, t[0], y) <= 0 {
        assert y in multiset(rest);
        if y != x {
          assert y in multiset(t[1..]);
          var j :| 0 <= j < |t[1..]| && t[1..][j] == y;
          assert t[j + 1] == y;
        }
      }
      SortedCons(keys, t[0], rest);
    }
  }

  /** Over documents that never mix numbers and strings under a key, the result is ordered. */
  lemma {:induction false} SortBySorted(keys: seq<SortKey>, kinds: seq<Kind>, s: seq<Document>)
    requires AllConform(keys, kinds, s)
    ensures SortedBy(keys, SortBy(keys, s))
  {
    if s != [] {
      assert s == [s[0]] + s[1..];
      assert s[0] in s;
      AllConformSub(keys, kinds, s, s[1..]);
      SortBySorted(keys, kinds, s[1..]);
      AllConformSub(keys, kinds, s[1..], SortBy(keys, s[1..]));
      InsertSorted(keys, kinds, s[0], SortBy(keys, s[1..]));
    }
  }

  lemma TiesCons(keys: seq<SortKey>, y: Document, rest: seq<Document>, d: Document)
    ensures Ties(keys, [y] + rest, d) == (if Compare(keys, y, d) == 0 then [y] else []) + Ties(keys, rest, d)
  {
    assert ([y] + rest)[0] == y && ([y] + rest)[1..] == rest;
  }

  /** A document that goes after `y` does not tie with `d` when `y` does. */
  lemma PassedNotTied(keys: seq<SortKey>, kinds: seq<Kind>, x: Document, y: Document, d: Document)
    requires Conforms(keys, kinds, x) && Conforms(keys, kinds, y) && Conforms(keys, kinds, d)
    requires Compare(keys, x, y) > 0
    ensures !(Compare(keys, x, d) == 0 && Compare(keys, y, d) == 0)
  {
    CompareAntisymmetric(keys, y, d);
    ConformingTie(keys, kinds, x, d, y);
  }

  lemma {:induction false} InsertTies(keys: seq<SortKey>, kinds: seq<Kind>, x: Document, t: seq<Document>, d: Document)
    requires AllConform(keys, kinds, t) && Conforms(keys, kinds, x) && Conforms(keys, kinds, d)
    ensures Ties(keys, Insert(keys, x, t), d) ==
              (if Compare(keys, x, d) == 0 then [x] else []) + Ties(keys, t, d)
  {
    if t == [] {
      TiesCons(keys, x, [], d);
    } else if Compare(keys, x, t[0]) <= 0 {
      TiesCons(keys, x, t, d);
    } else {
      var rest := Insert(keys, x, t[1..]);
      AllConformTail(keys, kinds, t);
      InsertTies(keys, kinds, x, t[1..], d);
      TiesCons(keys, t[0], rest, d);
      assert t == [t[0]] + t[1..];
      TiesCons(keys, t[0], t[1..], d);
      PassedNotTied(keys, kinds, x, t[0], d);
    }
  }

  /**
   * Stability: the documents that tie with `d` on every key come out in the same
   * relative order as they went in.
   */
  lemma {:induction false} SortByStable(keys: seq<SortKey>, kinds: seq<Kind>, s: seq<Document>, d: Document)
    requires AllConform(keys, kinds, s) && Conforms(keys, kinds, d)
    ensures Ties(keys, SortBy(keys, s), d) == Ties(keys, s, d)
  {
    if s != [] {
      assert s == [s[0]] + s[1..];
      assert s[0] in s;
      AllConformSub(keys, kinds, s, s[1..]);
      SortByStable(keys, kinds, s[1..], d);
      AllConformSub(keys, kinds, s[1..], SortBy(keys, s[1..]));
      InsertTies(keys, kinds, s[0], SortBy(keys, s[1..]), d);
    }
  }

  /** Sorting by more keys refines the order by the first ones: later keys only break ties. */
  lemma SortedByPrefixKeys(keys: seq<SortKey>, more: seq<SortKey>, s: seq<Document>)
    requires SortedBy(keys + more, s)
    ensures SortedBy(keys, s)
    ensures forall i, j :: 0 <= i < j < |s| && Compare(keys, s[i], s[j]) == 0 ==> Compare(more, s[i], s[j]) <= 0
  {
    forall i, j | 0 <= i < j < |s| ensures Compare(keys, s[i], s[j]) <= 0 {
      CompareAppend(keys, more, s[i], s[j]);
    }
    forall i, j | 0 <= i < j < |s| && Compare(keys, s[i], s[j]) == 0 ensures Compare(more, s[i], s[j]) <= 0 {
      CompareAppend(keys, more, s[i], s[j]);
    }
  }

  /** One numeric key with direction 1 gives non-decreasing values. */
  lemma NumericAscending(name: string, s: seq<Document>)
    requires forall d: Document :: d in s ==> name in d && d[name].Num?
    ensures var r := SortBy([SortKey(name, Ascending)], s);
      (forall d: Document :: d in r ==> name in d && d[name].Num?) &&
      forall i, j :: 0 <= i < j < |r| ==> r[i][name].n <= r[j][name].n
  {
    var keys: seq<SortKey> := [SortKey(name, Ascending)];
    var r: seq<Document> := SortBy(keys, s);
    forall d: Document | d in r ensures name in d && d[name].Num? {
      assert d in multiset(r);
    }
    assert AllConform(keys, [Numbers], s);
    SortBySorted(keys, [Numbers], s);
    forall i, j | 0 <= i < j < |r| ensures r[i][name].n <= r[j][name].n {
      assert r[i] in r && r[j] in r;
      assert Compare(keys, r[i], r[j]) <= 0;
    }
  }

  /** One numeric key with direction -1 gives non-increasing values. */
  lemma NumericDescending(name: string, s: seq<Document>)
    requires forall d: Document :: d in s ==> name in d && d[name].Num?
    ensures var r := SortBy([SortKey(name, Descending)], s);
      (forall d: Document :: d in r ==> name in d && d[name].Num?) &&
      forall i, j :: 0 <= i < j < |r| ==> r[i][name].n >= r[j][name].n
  {
    var keys: seq<SortKey> := [SortKey(name, Descending)];
    var r: seq<Document> := SortBy(keys, s);
    forall d: Document | d in r ensures name in d && d[name].Num? {
      assert d in multiset(r);
    }
    assert AllConform(keys, [Numbers], s);
    SortBySorted(keys, [Numbers], s);
    forall i, j | 0 <= i < j < |r| ensures r[i][name].n >= r[j][name].n {
      assert r[i] in r && r[j] in r;
      assert Compare(keys, r[i], r[j]) <= 0;
    }
  }

  /** With direction 1, documents missing the field come after all that have it. */
  lemma MissingLastAscending(name: string, kind: Kind, s: seq<Document>)
    requires AllConform([SortKey(name, Ascending)], [kind], s)
    ensures var r := SortBy([SortKey(name, Ascending)], s);
      forall i, j :: 0 <= i < j < |r| && name !in r[i] ==> name !in r[j]
  {
    var keys: seq<SortKey> := [SortKey(name, Ascending)];
    var r: seq<Document> := SortBy(keys, s);
    SortBySorted(keys, [kind], s);
    forall i, j | 0 <= i < j < |r| && name !in r[i] ensures name !in r[j] {
      assert Compare(keys, r[i], r[j]) <= 0;
    }
  }

  /** With direction -1, documents missing the field come before all that have it. */
  lemma MissingFirstDescending(name: string, kind: Kind, s: seq<Document>)
    requires AllConform([SortKey(name, Descending)], [kind], s)
    ensures var r := SortBy([SortKey(name, Descending)], s);
      forall i, j :: 0 <= i < j < |r| && name in r[i] ==> name in r[j]
  {
    var keys: seq<SortKey> := [SortKey(name, Descending)];
    var r: seq<Document> := SortBy(keys, s);
    SortBySorted(keys, [kind], s);
    forall i, j | 0 <= i < j < |r| && name in r[i] ensures name in r[j] {
      assert Compare(keys, r[i], r[j]) <= 0;
    }
  }
}
