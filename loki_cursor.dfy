/**
 * The in-memory result cursor (lib/loki/LokiCursor.mjs). It holds the documents of a
 * result in order; `sort`, `limit` and `skip` return new cursors over copies, and `next`
 * takes the head off the cursor's own data.
 */
module LokiCursor {
  import opened Wrappers
  import opened CursorOrder
  import opened CursorSort

  /** Where `Array.prototype.slice` starts or stops for an index argument `i`. */
  function RelativeIndex(i: int, n: nat): (r: nat)
    ensures r <= n
  {
    if i < 0 then (if n + i < 0 then 0 else n + i)
    else if i > n then n
    else i
  }

  /** `s.slice(start, end)`: never longer than `s`, and never a document `s` does not hold. */
  function Slice<T>(s: seq<T>, start: int, end: int): (r: seq<T>)
    ensures |r| <= |s|
    ensures multiset(r) <= multiset(s)
  {
    var from, to := RelativeIndex(start, |s|), RelativeIndex(end, |s|);
    if from <= to then
      assert s == s[..from] + s[from..to] + s[to..];
      s[from..to]
    else []
  }

  /** The data of `limit(count)`: `slice(0, count)`, a prefix of the data for every count. */
  function Limited<T>(s: seq<T>, count: int): (r: seq<T>)
    ensures |r| <= |s| && r == s[..|r|]
  {
    Slice(s, 0, count)
  }

  /** The data of `skip(count)`: `slice(count)`, a suffix of the data for every count. */
  function Skipped<T>(s: seq<T>, count: int): (r: seq<T>)
    ensures |r| <= |s| && r == s[|s| - |r|..]
  {
    Slice(s, count, |s|)
  }

  /** For a count of at least 0, `limit` keeps the first `min(count, n)` documents. */
  lemma LimitedIsPrefix<T>(s: seq<T>, count: int)
    requires 0 <= count
    ensures |Limited(s, count)| == if count <= |s| then count else |s|
    ensures Limited(s, count) == s[..|Limited(s, count)|]
  {
  }

  /** For a count of at least 0, `skip` keeps the documents from index `count` on. */
  lemma SkippedIsSuffix<T>(s: seq<T>, count: int)
    requires 0 <= count
    ensures Skipped(s, count) == if count <= |s| then s[count..] else []
  {
  }

  /** A negative count counts from the end: `limit(-m)` drops, `skip(-m)` keeps, the last `m`. */
  lemma NegativeCounts<T>(s: seq<T>, m: int)
    requires 0 < m
    ensures Limited(s, -m) == if m <= |s| then s[..|s| - m] else []
    ensures Skipped(s, -m) == if m <= |s| then s[|s| - m..] else s
  {
  }

  /** Whatever the count, `limit(count)` followed by `skip(count)` are the cursor's data split in two. */
  lemma LimitedThenSkipped<T>(s: seq<T>, count: int)
    ensures Limited(s, count) + Skipped(s, count) == s
  {
    var k := RelativeIndex(count, |s|);
    assert RelativeIndex(0, |s|) == 0 && RelativeIndex(|s|, |s|) == |s|;
    assert Limited(s, count) == s[..k] && Skipped(s, count) == s[k..];
  }

  /** Limits compose: a limit of a limit keeps the smaller number of documents. */
  lemma LimitedTwice<T>(s: seq<T>, a: nat, b: nat)
    ensures Limited(Limited(s, a), b) == Limited(s, if a <= b then a else b)
  {
  }

  /** Skips compose: skipping `a` and then `b` documents skips `a + b`. */
  lemma SkippedTwice<T>(s: seq<T>, a: nat, b: nat)
    ensures Skipped(Skipped(s, a), b) == Skipped(s, a + b)
  {
    if a <= |s| {
      assert Skipped(s, a) == s[a..];
      if b <= |s| - a {
        assert s[a..][b..] == s[a + b..];
      }
    }
  }

  class Cursor {
    /** The documents not yet taken by `Next`, in order (`#data`). */
    var data: seq<Document>

    constructor (data: seq<Document>)
      ensures this.data == data
    {
      this.data := data;
    }

    /** All documents the cursor still holds. */
    method ToArray() returns (r: seq<Document>)
      ensures r == data
    {
      r := data;
    }

    /**
     * A new cursor over the data sorted by `keys`; this cursor keeps its order.
     * The new data is a permutation of the old (SortBy), ordered (SortBySorted) and
     * stable (SortByStable).
     */
    method Sort(keys: seq<SortKey>) returns (c: Cursor)
      ensures fresh(c) && c.data == SortBy(keys, data)
      ensures multiset(c.data) == multiset(data)
      ensures unchanged(this)
    {
      c := new Cursor(SortBy(keys, data));
    }

    /** Removes and returns the first document; returns nothing when there is none. */
    method Next() returns (r: Option<Document>)
      modifies this
      ensures old(data) == [] ==> r == None && data == []
      ensures old(data) != [] ==> r == Some(old(data)[0]) && data == old(data)[1..]
      ensures (if r.Some? then [r.value] else []) + data == old(data)
    {
      if data == [] {
        r := None;
      } else {
        r := Some(data[0]);
        data := data[1..];
      }
    }

    /** A new cursor over `slice(0, count)` of the data; this cursor is unchanged. */
    method Limit(count: int) returns (c: Cursor)
      ensures fresh(c) && c.data == Limited(data, count)
      ensures unchanged(this)
    {
      c := new Cursor(Slice(data, 0, count));
    }

    /** A new cursor over `slice(count)` of the data; this cursor is unchanged. */
    method Skip(count: int) returns (c: Cursor)
      ensures fresh(c) && c.data == Skipped(data, count)
      ensures unchanged(this)
    {
      c := new Cursor(Slice(data, count, |data|));
    }
  }
}
