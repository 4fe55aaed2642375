/**
 * The multi-key comparator of the in-memory cursor (lib/loki/LokiCursor.mjs, `sort`).
 *
 * A document maps field names to numbers or strings; a name that is not in the map is
 * an `undefined` field. Keys are consulted in order; per key, two numbers compare by
 * their difference, two other defined values by the three-way comparison of their string
 * forms, two missing values tie, and a missing value is greater than a present one. The
 * per-key result is multiplied by the key's direction.
 */
module CursorOrder {

  datatype Value = Num(n: int) | Str(s: string)

  type Document = map<string, Value>

  datatype Direction = Ascending | Descending

  /** One entry of the `columns` argument of `sort`, in the order of its keys. */
  datatype SortKey = SortKey(name: string, direction: Direction)

  function Sign(d: Direction): (r: int)
    ensures r == 1 || r == -1
  {
    if d == Ascending then 1 else -1
  }

  /** Three-way comparison of strings by code point, standing for `localeCompare`. */
  function StrCompare(x: string, y: string): (r: int)
    ensures -1 <= r <= 1
  {
    if x == [] && y == [] then 0
    else if x == [] then -1
    else if y == [] then 1
    else if x[0] < y[0] then -1
    else if x[0] > y[0] then 1
    else StrCompare(x[1..], y[1..])
  }

  function DigitChar(d: int): char
    requires 0 <= d < 10
  {
    ('0' as int + d) as char
  }

  function NatToString(n: nat): (r: string)
    ensures |r| > 0 && forall j :: 0 <= j < |r| ==> '0' <= r[j] <= '9'
  {
    if n < 10 then [DigitChar(n)] else NatToString(n / 10) + [DigitChar(n % 10)]
  }

  /** The number a string of decimal digits stands for. */
  function DigitsValue(s: string): int
  {
    if s == [] then 0 else DigitsValue(s[..|s| - 1]) * 10 + (s[|s| - 1] as int - '0' as int)
  }

  /** The digits `NatToString` writes are the decimal digits of `n`. */
  lemma {:induction false} NatToStringValue(n: nat)
    ensures DigitsValue(NatToString(n)) == n
  {
    var t := NatToString(n);
    if n >= 10 {
      NatToStringValue(n / 10);
      assert t[..|t| - 1] == NatToString(n / 10);
    }
  }

  /** The string form `toString()` gives a value: decimal for an integer. */
  function Text(v: Value): (r: string)
    ensures v.Str? ==> r == v.s
    ensures v.Num? ==> |r| > 0 && (r[0] == '-' <==> v.n < 0)
    ensures v.Num? ==> forall j :: 0 < j < |r| ==> '0' <= r[j] <= '9'
  {
    match v
    case Str(s) => s
    case Num(n) => if n < 0 then "-" + NatToString(-n) else NatToString(n)
  }

  /**
   * An integer's text is its decimal notation: the digits after an optional `-` stand for
   * its absolute value, so two different integers never have the same text.
   */
  lemma TextOfInteger(x: int, y: int)
    ensures DigitsValue(if x < 0 then Text(Num(x))[1..] else Text(Num(x))) == (if x < 0 then -x else x)
    ensures Text(Num(x)) == Text(Num(y)) ==> x == y
  {
    NatToStringValue(if x < 0 then -x else x);
    NatToStringValue(if y < 0 then -y else y);
    if x < 0 {
      assert Text(Num(x))[1..] == NatToString(-x);
    }
    if y < 0 {
      assert Text(Num(y))[1..] == NatToString(-y);
    }
  }

  /** Both documents lack the field, or both hold the same value there. */
  predicate Agree(name: string, a: Document, b: Document)
  {
    (name in a <==> name in b) && (name in a ==> a[name] == b[name])
  }

  /** The inner `sortColumn(name, a, b)` of `sort`; documents that agree on the field tie. */
  function SortColumn(name: string, a: Document, b: Document): (r: int)
    ensures Agree(name, a, b) ==> r == 0
  {
    if name in a && name in b && a[name].Num? && b[name].Num? then a[name].n - b[name].n
    else if name in a && name in b then
      StrCompareZero(Text(a[name]), Text(b[name]));
      StrCompare(Text(a[name]), Text(b[name]))
    else if name !in a && name !in b then 0
    else if name !in a then 1
    else -1
  }

  /** The comparator handed to `toSorted`: the first key whose column does not tie decides. */
  function Compare(keys: seq<SortKey>, a: Document, b: Document): int
  {
    if keys == [] then 0
    else
      var r := SortColumn(keys[0].name, a, b);
      if r != 0 then r * Sign(keys[0].direction) else Compare(keys[1..], a, b)
  }

  /** Two documents do not hold a number and a string under the same field. */
  predicate Comparable(name: string, a: Document, b: Document)
  {
    name in a && name in b ==> a[name].Num? == b[name].Num?
  }

  predicate PairComparable(keys: seq<SortKey>, a: Document, b: Document)
  {
    forall k :: 0 <= k < |keys| ==> Comparable(keys[k].name, a, b)
  }

  /** What a sort key's column holds across the documents being sorted. */
  datatype Kind = Numbers | Strings

  /**
   * Each sort key present in `d` holds a value of the kind `kinds` gives that key; a set of
   * documents that all conform never mixes numbers and strings under one key.
   */
  predicate Conforms(keys: seq<SortKey>, kinds: seq<Kind>, d: Document)
  {
    && |kinds| == |keys|
    && forall k :: 0 <= k < |keys| && keys[k].name in d ==> (d[keys[k].name].Num? <==> kinds[k] == Numbers)
  }

  lemma ConformsComparable(keys: seq<SortKey>, kinds: seq<Kind>, a: Document, b: Document)
    requires Conforms(keys, kinds, a) && Conforms(keys, kinds, b)
    ensures PairComparable(keys, a, b)
  {
  }

  // ---------------------------------------------------------------------------------------
  // The string order

  lemma {:induction false} StrCompareAntisymmetric(x: string, y: string)
    ensures StrCompare(y, x) == -StrCompare(x, y)
  {
    if x != [] && y != [] && x[0] == y[0] {
      StrCompareAntisymmetric(x[1..], y[1..]);
    }
  }

  lemma {:induction false} StrCompareZero(x: string, y: string)
    ensures StrCompare(x, y) == 0 <==> x == y
  {
    if x != [] && y != [] && x[0] == y[0] {
      StrCompareZero(x[1..], y[1..]);
      if x[1..] == y[1..] {
        assert x == [x[0]] + x[1..] && y == [y[0]] + y[1..];
      }
    }
  }

  lemma {:induction false} StrCompareTransitive(x: string, y: string, z: string)
    requires StrCompare(x, y) <= 0 && StrCompare(y, z) <= 0
    ensures StrCompare(x, z) <= 0
  {
    if x != [] && y != [] && z != [] && x[0] == y[0] == z[0] {
      StrCompareTransitive(x[1..], y[1..], z[1..]);
    }
  }

  // ---------------------------------------------------------------------------------------
  // One column

  lemma ColumnAntisymmetric(name: string, a: Document, b: Document)
    ensures SortColumn(name, b, a) == -SortColumn(name, a, b)
  {
    if name in a && name in b && !(a[name].Num? && b[name].Num?) {
      StrCompareAntisymmetric(Text(a[name]), Text(b[name]));
    }
  }

  lemma ColumnTransitive(name: string, a: Document, b: Document, c: Document)
    requires Comparable(name, a, b) && Comparable(name, b, c)
    requires SortColumn(name, a, b) <= 0 && SortColumn(name, b, c) <= 0
    ensures SortColumn(name, a, c) <= 0
  {
    if name in a && name in b && name in c && !a[name].Num? {
      StrCompareTransitive(Text(a[name]), Text(b[name]), Text(c[name]));
    }
  }

  /** A missing field sorts after a present one, and two missing fields tie. */
  lemma ColumnMissing(name: string, a: Document, b: Document)
    ensures name !in a && name !in b ==> SortColumn(name, a, b) == 0
    ensures name !in a && name in b ==> SortColumn(name, a, b) > 0
    ensures name in a && name !in b ==> SortColumn(name, a, b) < 0
  {
  }

  /** A column ties exactly when both fields are missing or both hold the same value. */
  lemma ColumnTie(name: string, a: Document, b: Document)
    requires Comparable(name, a, b)
    ensures SortColumn(name, a, b) == 0 <==>
              (name !in a && name !in b) || (name in a && name in b && a[name] == b[name])
  {
    if name in a && name in b && !a[name].Num? {
      StrCompareZero(Text(a[name]), Text(b[name]));
    }
  }

  lemma SignedColumnTransitive(key: SortKey, a: Document, b: Document, c: Document)
    requires Comparable(key.name, a, b) && Comparable(key.name, b, c)
    requires SortColumn(key.name, a, b) * Sign(key.direction) <= 0
    requires SortColumn(key.name, b, c) * Sign(key.direction) <= 0
    ensures SortColumn(key.name, a, c) * Sign(key.direction) <= 0
  {
    if key.direction == Ascending {
      ColumnTransitive(key.name, a, b, c);
    } else {
      ColumnAntisymmetric(key.name, a, b);
      ColumnAntisymmetric(key.name, b, c);
      ColumnAntisymmetric(key.name, a, c);
      ColumnTransitive(key.name, c, b, a);
    }
  }

  // ---------------------------------------------------------------------------------------
  // All keys

  lemma {:induction false} CompareAntisymmetric(keys: seq<SortKey>, a: Document, b: Document)
    ensures Compare(keys, b, a) == -Compare(keys, a, b)
  {
    if keys != [] {
      ColumnAntisymmetric(keys[0].name, a, b);
      CompareAntisymmetric(keys[1..], a, b);
    }
  }

  /** Every document ties with itself, so the comparator is consistent as `toSorted` requires. */
  lemma {:induction false} CompareReflexive(keys: seq<SortKey>, a: Document)
    ensures Compare(keys, a, a) == 0
  {
    if keys != [] {
      CompareReflexive(keys[1..], a);
    }
  }

  lemma PairComparableTail(keys: seq<SortKey>, a: Document, b: Document)
    requires keys != [] && PairComparable(keys, a, b)
    ensures Comparable(keys[0].name, a, b) && PairComparable(keys[1..], a, b)
  {
    assert Comparable(keys[0].name, a, b);
    forall k | 0 <= k < |keys| - 1 ensures Comparable(keys[1..][k].name, a, b) {
      assert keys[1..][k] == keys[k + 1];
    }
  }

  lemma {:induction false} CompareTransitive(keys: seq<SortKey>, a: Document, b: Document, c: Document)
    requires PairComparable(keys, a, b) && PairComparable(keys, b, c) && PairComparable(keys, a, c)
    requires Compare(keys, a, b) <= 0 && Compare(keys, b, c) <= 0
    ensures Compare(keys, a, c) <= 0
  {
    if keys != [] {
      var key := keys[0];
      PairComparableTail(keys, a, b);
      PairComparableTail(keys, b, c);
      PairComparableTail(keys, a, c);
      var s := Sign(key.direction);
      var ab, bc, ac := SortColumn(key.name, a, b), SortColumn(key.name, b, c), SortColumn(key.name, a, c);
      ColumnAntisymmetric(key.name, a, b);
      ColumnAntisymmetric(key.name, b, c);
      ColumnAntisymmetric(key.name, a, c);
      assert ab * s <= 0 && bc * s <= 0 by {
        assert ab != 0 ==> Compare(keys, a, b) == ab * s;
        assert bc != 0 ==> Compare(keys, b, c) == bc * s;
      }
      SignedColumnTransitive(key, a, b, c);
      if ab == 0 && bc == 0 {
        SignedColumnTransitive(key, c, b, a);
        CompareTransitive(keys[1..], a, b, c);
      } else if ab != 0 {
        // ac * s == 0 would give b before a through c
        if ac == 0 {
          SignedColumnTransitive(key, b, c, a);
        }
      } else {
        if ac == 0 {
          SignedColumnTransitive(key, c, a, b);
        }
      }
    }
  }

  lemma CompareTie(keys: seq<SortKey>, a: Document, b: Document, c: Document)
    requires PairComparable(keys, a, b) && PairComparable(keys, b, c) && PairComparable(keys, a, c)
    requires Compare(keys, a, b) == 0 && Compare(keys, b, c) == 0
    ensures Compare(keys, a, c) == 0
  {
    CompareTransitive(keys, a, b, c);
    CompareAntisymmetric(keys, a, b);
    CompareAntisymmetric(keys, b, c);
    CompareAntisymmetric(keys, a, c);
    CompareTransitive(keys, c, b, a) by {
      forall k | 0 <= k < |keys| ensures Comparable(keys[k].name, c, b) && Comparable(keys[k].name, b, a)
        && Comparable(keys[k].name, c, a) {
        assert Comparable(keys[k].name, a, b) && Comparable(keys[k].name, b, c) && Comparable(keys[k].name, a, c);
      }
    }
  }

  /** The order is transitive over documents that conform to one choice of kinds. */
  lemma ConformingTransitive(keys: seq<SortKey>, kinds: seq<Kind>, a: Document, b: Document, c: Document)
    requires Conforms(keys, kinds, a) && Conforms(keys, kinds, b) && Conforms(keys, kinds, c)
    requires Compare(keys, a, b) <= 0 && Compare(keys, b, c) <= 0
    ensures Compare(keys, a, c) <= 0
  {
    ConformsComparable(keys, kinds, a, b);
    ConformsComparable(keys, kinds, b, c);
    ConformsComparable(keys, kinds, a, c);
    CompareTransitive(keys, a, b, c);
  }

  /** Tying on all keys is an equivalence over conforming documents: reflexive, symmetric, transitive. */
  lemma ConformingTie(keys: seq<SortKey>, kinds: seq<Kind>, a: Document, b: Document, c: Document)
    requires Conforms(keys, kinds, a) && Conforms(keys, kinds, b) && Conforms(keys, kinds, c)
    ensures Compare(keys, a, a) == 0
    ensures Compare(keys, a, b) == 0 ==> Compare(keys, b, a) == 0
    ensures Compare(keys, a, b) == 0 && Compare(keys, b, c) == 0 ==> Compare(keys, a, c) == 0
  {
    CompareReflexive(keys, a);
    CompareAntisymmetric(keys, a, b);
    if Compare(keys, a, b) == 0 && Compare(keys, b, c) == 0 {
      ConformsComparable(keys, kinds, a, b);
      ConformsComparable(keys, kinds, b, c);
      ConformsComparable(keys, kinds, a, c);
      CompareTie(keys, a, b, c);
    }
  }

  /**
   * Keys are consulted in order: extra keys after `keys` are used only when `keys`
   * tie, and then they alone decide.
   */
  lemma {:induction false} CompareAppend(keys: seq<SortKey>, more: seq<SortKey>, a: Document, b: Document)
    ensures Compare(keys + more, a, b) ==
              if Compare(keys, a, b) != 0 then Compare(keys, a, b) else Compare(more, a, b)
  {
    if keys == [] {
      assert keys + more == more;
    } else {
      assert (keys + more)[0] == keys[0];
      assert (keys + more)[1..] == keys[1..] + more;
      CompareAppend(keys[1..], more, a, b);
    }
  }

  /** Documents that tie on every key compare as equal, so the sort keeps their order. */
  lemma {:induction false} CompareZeroIffAllTie(keys: seq<SortKey>, a: Document, b: Document)
    ensures Compare(keys, a, b) == 0 <==> forall k :: 0 <= k < |keys| ==> SortColumn(keys[k].name, a, b) == 0
  {
    if keys != [] {
      CompareZeroIffAllTie(keys[1..], a, b);
      if Compare(keys, a, b) == 0 {
        forall k | 0 <= k < |keys| ensures SortColumn(keys[k].name, a, b) == 0 {
          if k > 0 { assert keys[1..][k - 1] == keys[k]; }
        }
      } else if SortColumn(keys[0].name, a, b) == 0 {
        var k :| 0 <= k < |keys[1..]| && SortColumn(keys[1..][k].name, a, b) != 0;
        assert keys[1..][k] == keys[k + 1];
      }
    }
  }

  /** With direction -1 the order of a single key is reversed. */
  lemma DescendingReverses(name: string, a: Document, b: Document)
    ensures Compare([SortKey(name, Descending)], a, b) == Compare([SortKey(name, Ascending)], b, a)
  {
    ColumnAntisymmetric(name, a, b);
  }

  /**
   * Why the sort lemmas exclude keys that mix numbers and strings: `2` ties with `"2"`,
   * yet `2` sorts before `10` and `10` before `"2"` (as the strings `"10"` and `"2"`).
   */
  lemma MixedColumnNotTransitive()
    ensures var a, b, c := map["x" := Num(2)], map["x" := Str("2")], map["x" := Num(10)];
      SortColumn("x", a, b) == 0 && SortColumn("x", a, c) < 0 && SortColumn("x", c, b) < 0
  {
    assert Text(Num(2)) == "2";
    assert NatToString(1) == "1";
    assert Text(Num(10)) == "10" by {
      assert NatToString(10) == NatToString(1) + [DigitChar(0)];
    }
    assert StrCompare("10", "2") == -1;
  }
}
