/**
 * The slow-query rule of the debugging collection (lib/mongo/MongoDatabaseDebugCollection.mjs):
 * a query whose plan examined more than ten documents per document returned is reported
 * to the trigger given at construction.
 */
module MongoDebug {

  /** The `executionStats` part of the server's explain output, as far as the rule reads it. */
  datatype ExecutionStats = ExecutionStats(totalDocsExamined: nat, nReturned: nat)

  /** The outcome of the JavaScript division of two counts. */
  datatype Quotient = Finite(value: real) | Infinity | NaN

  /** `a / b` on two non-negative counts: exact for b > 0, `Infinity` for a > 0 = b, `NaN` for 0 / 0. */
  function Divide(a: nat, b: nat): (q: Quotient)
    ensures q.Finite? <==> b > 0
    ensures q.Finite? ==> q.value * b as real == a as real
    ensures q == Infinity <==> b == 0 && a > 0
  {
    if b > 0 then Finite(a as real / b as real)
    else if a > 0 then Infinity
    else NaN
  }

  /** `q > bound`: `Infinity` exceeds every number and `NaN` compares false. */
  predicate GreaterThan(q: Quotient, bound: real)
  {
    match q
    case Finite(x) => x > bound
    case Infinity => true
    case NaN => false
  }

  /** `isHighThreshold(explained)`: never when nothing was examined, always when only nothing was returned. */
  predicate IsHighThreshold(explained: ExecutionStats)
    ensures IsHighThreshold(explained) ==> explained.totalDocsExamined > 0
    ensures explained.nReturned == 0 && explained.totalDocsExamined > 0 ==> IsHighThreshold(explained)
  {
    GreaterThan(Divide(explained.totalDocsExamined, explained.nReturned), 10.0)
  }

  lemma ScaleStrict(x: real, y: real, b: real)
    requires b > 0.0 && x > y
    ensures x * b > y * b
  {
    assert (x - y) * b > 0.0;
  }

  lemma QuotientAbove(a: real, b: real, bound: real)
    requires b > 0.0
    ensures a / b > bound <==> a > bound * b
  {
    var q := a / b;
    assert q * b == a;
    if q > bound {
      ScaleStrict(q, bound, b);
    } else if q < bound {
      ScaleStrict(bound, q, b);
    }
  }

  /** The rule on counts: more than ten examined per returned, or something examined and nothing returned. */
  lemma HighThresholdOnCounts(e: ExecutionStats)
    ensures IsHighThreshold(e) <==>
              if e.nReturned > 0 then e.totalDocsExamined > 10 * e.nReturned else e.totalDocsExamined > 0
  {
    if e.nReturned > 0 {
      QuotientAbove(e.totalDocsExamined as real, e.nReturned as real, 10.0);
      assert (10 * e.nReturned) as real == 10.0 * e.nReturned as real;
    }
  }

  /** A ratio of exactly ten is not high. */
  lemma RatioTenIsNotHigh(returned: nat)
    requires returned > 0
    ensures !IsHighThreshold(ExecutionStats(10 * returned, returned))
  {
    HighThresholdOnCounts(ExecutionStats(10 * returned, returned));
  }

  /** Nothing returned: high as soon as anything was examined (`Infinity`), not when nothing was (`NaN`). */
  lemma NothingReturned(examined: nat)
    ensures IsHighThreshold(ExecutionStats(examined, 0)) <==> examined > 0
  {
  }

  /** With the returned count fixed, examining more documents never turns a high query into a normal one. */
  lemma HighThresholdMonotonic(examined: nat, more: nat, returned: nat)
    requires examined <= more
    requires IsHighThreshold(ExecutionStats(examined, returned))
    ensures IsHighThreshold(ExecutionStats(more, returned))
  {
    HighThresholdOnCounts(ExecutionStats(examined, returned));
    HighThresholdOnCounts(ExecutionStats(more, returned));
  }

  /** Fifty documents scanned to find one, as in test/test-mongo-database.test.mjs, fires the trigger. */
  lemma FiftyExaminedOneReturned()
    ensures IsHighThreshold(ExecutionStats(50, 1))
  {
    HighThresholdOnCounts(ExecutionStats(50, 1));
  }

  /** What one `findDocuments` call does: the trigger's arguments, in call order, and the cursor returned. */
  datatype FindOutcome<C> = FindOutcome(triggered: seq<ExecutionStats>, cursor: C)

  /**
   * `findDocuments(query)`: explain the query, hand the stats to the trigger if the rule
   * holds, then return a fresh driver cursor for the query. `explain` and `find` stand for
   * the driver.
   */
  function FindDocuments<Q, C>(query: Q, explain: Q -> ExecutionStats, find: Q -> C): (r: FindOutcome<C>)
    ensures |r.triggered| <= 1
    ensures |r.triggered| == 1 <==> IsHighThreshold(explain(query))
    ensures forall i :: 0 <= i < |r.triggered| ==> r.triggered[i] == explain(query)
    ensures r.cursor == find(query)
  {
    var explained := explain(query);
    FindOutcome(if IsHighThreshold(explained) then [explained] else [], find(query))
  }
}
