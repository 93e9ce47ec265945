/**
 * Count-based metrics over nearest-neighbour results in the sentence-pairs format: each row
 * says whether the pair is a true match, the neighbour's rank and its distance.
 */
module EvalKnn {
  import opened Wrappers

  /** One row of the pairs table: the `is_match`, `rank` and `distance` columns. */
  datatype Pair = Pair(isMatch: bool, rank: int, distance: real)

  /** Dividing a count by zero raises ZeroDivisionError. */
  datatype MetricError = ZeroDivision

  /** The row filters the metrics apply (`pl.col(...)` conditions). */
  datatype Filter =
    | IsMatch                   // is_match
    | MatchBelowRank(k: int)    // is_match, rank < k
    | Within(d: real)           // distance <= d
    | MatchWithin(d: real)      // is_match, distance <= d

  predicate Keeps(f: Filter, p: Pair) {
    match f
    case IsMatch => p.isMatch
    case MatchBelowRank(k) => p.isMatch && p.rank < k
    case Within(d) => p.distance <= d
    case MatchWithin(d) => p.isMatch && p.distance <= d
  }

  /** The number of rows a filter keeps (`filter(...).shape[0]`). */
  function Count(rows: seq<Pair>, keep: Filter): (n: nat)
    ensures n <= |rows|
  {
    if rows == [] then 0
    else Count(rows[..|rows| - 1], keep) + (if Keeps(keep, rows[|rows| - 1]) then 1 else 0)
  }

  /** A filter that keeps a row whenever a weaker filter keeps it counts at least as many rows. */
  lemma {:induction false} CountMono(rows: seq<Pair>, keep: Filter, wider: Filter)
    requires forall p :: Keeps(keep, p) ==> Keeps(wider, p)
    ensures Count(rows, keep) <= Count(rows, wider)
  {
    if rows != [] {
      CountMono(rows[..|rows| - 1], keep, wider);
    }
  }

  /** Two filters that agree on every row count the same. */
  lemma {:induction false} CountSame(rows: seq<Pair>, keep: Filter, other: Filter)
    requires forall k :: 0 <= k < |rows| ==> Keeps(keep, rows[k]) == Keeps(other, rows[k])
    ensures Count(rows, keep) == Count(rows, other)
  {
    if rows != [] {
      var init := rows[..|rows| - 1];
      forall k | 0 <= k < |init| ensures Keeps(keep, init[k]) == Keeps(other, init[k]) {
        assert init[k] == rows[k];
      }
      CountSame(init, keep, other);
    }
  }

  /** Zero exactly when the filter keeps no row. */
  lemma {:induction false} CountZero(rows: seq<Pair>, keep: Filter)
    ensures Count(rows, keep) == 0 <==> forall k :: 0 <= k < |rows| ==> !Keeps(keep, rows[k])
  {
    if rows != [] {
      var init := rows[..|rows| - 1];
      CountZero(init, keep);
      assert forall k :: 0 <= k < |init| ==> init[k] == rows[k];
    }
  }

  /** The number of matching pairs, used when `n_matches` is not given. */
  function MatchCount(rows: seq<Pair>): nat {
    Count(rows, IsMatch)
  }

  /** `n_matches` as given, or else inferred from the rows. */
  function Denominator(rows: seq<Pair>, nMatches: Option<int>): int {
    match nMatches
    case Some(n) => n
    case None => MatchCount(rows)
  }

  /** count / denominator, raising on a zero denominator as Python's `/` does. */
  function Ratio(count: nat, denominator: int): (r: Result<real, MetricError>)
    ensures r.Err? <==> denominator == 0
    ensures r.Ok? ==> r.value * denominator as real == count as real
  {
    if denominator == 0 then Err(ZeroDivision) else Ok(count as real / denominator as real)
  }

  /** recall_at_k: matches ranked below k divided by the number of matches. */
  function RecallAtK(rows: seq<Pair>, k: int, nMatches: Option<int>): Result<real, MetricError> {
    Ratio(Count(rows, MatchBelowRank(k)), Denominator(rows, nMatches))
  }

  /** precision_at_distance: matches among the pairs within d, over the number of those pairs. */
  function PrecisionAtDistance(rows: seq<Pair>, d: real): Result<real, MetricError> {
    Ratio(Count(rows, MatchWithin(d)), Count(rows, Within(d)))
  }

  /** recall_at_distance: matches within d divided by the number of matches. */
  function RecallAtDistance(rows: seq<Pair>, d: real, nMatches: Option<int>): Result<real, MetricError> {
    Ratio(Count(rows, MatchWithin(d)), Denominator(rows, nMatches))
  }

  /** A fraction of a positive whole lies in [0, 1]. */
  lemma FractionBounds(part: nat, whole: nat)
    requires 0 < whole && part <= whole
    ensures 0.0 <= part as real / whole as real <= 1.0
  {
  }

  /** A fraction of a positive whole is 1 exactly when the part is the whole. */
  lemma FractionOne(part: nat, whole: nat)
    requires 0 < whole
    ensures part as real / whole as real == 1.0 <==> part == whole
  {
    if part as real / whole as real == 1.0 {
      assert part as real == (part as real / whole as real) * whole as real;
    }
  }

  /** Some row passes the filter, so its count is positive. */
  lemma CountPositive(rows: seq<Pair>, keep: Filter, j: nat)
    requires j < |rows| && Keeps(keep, rows[j])
    ensures Count(rows, keep) > 0
  {
    CountZero(rows, keep);
  }

  /** The same positive whole: a larger part gives a larger fraction. */
  lemma FractionMono(part: nat, larger: nat, whole: int)
    requires 0 < whole && part <= larger
    ensures part as real / whole as real <= larger as real / whole as real
  {
  }

  /**
   * recall_at_k with the inferred count fails exactly when no pair matches; otherwise it lies
   * in [0, 1], and giving the inferred count explicitly changes nothing.
   */
  lemma RecallAtKBounds(rows: seq<Pair>, k: int)
    ensures RecallAtK(rows, k, None).Err? <==> forall j :: 0 <= j < |rows| ==> !rows[j].isMatch
    ensures RecallAtK(rows, k, None).Ok? ==> 0.0 <= RecallAtK(rows, k, None).value <= 1.0
    ensures RecallAtK(rows, k, Some(MatchCount(rows))) == RecallAtK(rows, k, None)
  {
    CountZero(rows, IsMatch);
    CountMono(rows, MatchBelowRank(k), IsMatch);
    if MatchCount(rows) > 0 {
      FractionBounds(Count(rows, MatchBelowRank(k)), MatchCount(rows));
    }
  }

  /** recall_at_k never decreases as k grows, whatever the denominator, as long as it is positive. */
  lemma RecallAtKMono(rows: seq<Pair>, k: int, k': int, nMatches: Option<int>)
    requires k <= k' && Denominator(rows, nMatches) > 0
    ensures RecallAtK(rows, k, nMatches).Ok? && RecallAtK(rows, k', nMatches).Ok?
    ensures RecallAtK(rows, k, nMatches).value <= RecallAtK(rows, k', nMatches).value
  {
    CountMono(rows, MatchBelowRank(k), MatchBelowRank(k'));
    FractionMono(Count(rows, MatchBelowRank(k)), Count(rows, MatchBelowRank(k')), Denominator(rows, nMatches));
  }

  /** Once every matching pair is ranked below k, recall_at_k with the inferred count is 1. */
  lemma RecallAtKFull(rows: seq<Pair>, k: int)
    requires exists j :: 0 <= j < |rows| && rows[j].isMatch
    requires forall j :: 0 <= j < |rows| && rows[j].isMatch ==> rows[j].rank < k
    ensures RecallAtK(rows, k, None) == Ok(1.0)
  {
    var j :| 0 <= j < |rows| && rows[j].isMatch;
    CountPositive(rows, IsMatch, j);
    CountSame(rows, MatchBelowRank(k), IsMatch);
    FractionOne(Count(rows, MatchBelowRank(k)), MatchCount(rows));
  }

  /** precision_at_distance fails exactly when no pair is within d, and lies in [0, 1] otherwise. */
  lemma PrecisionBounds(rows: seq<Pair>, d: real)
    ensures PrecisionAtDistance(rows, d).Err? <==> forall j :: 0 <= j < |rows| ==> rows[j].distance > d
    ensures PrecisionAtDistance(rows, d).Ok? ==> 0.0 <= PrecisionAtDistance(rows, d).value <= 1.0
  {
    var within := Within(d);
    CountZero(rows, within);
    CountMono(rows, MatchWithin(d), within);
    var n := Count(rows, within);
    if n > 0 {
      FractionBounds(Count(rows, MatchWithin(d)), n);
    }
  }

  /** precision_at_distance is 1 exactly when some pair is within d and every such pair matches. */
  lemma PrecisionOne(rows: seq<Pair>, d: real)
    ensures PrecisionAtDistance(rows, d) == Ok(1.0) <==>
      (exists j :: 0 <= j < |rows| && rows[j].distance <= d) && forall j :: 0 <= j < |rows| && rows[j].distance <= d ==> rows[j].isMatch
  {
    CountZero(rows, Within(d));
    var n := Count(rows, Within(d));
    var m := Count(rows, MatchWithin(d));
    if n > 0 {
      FractionOne(m, n);
      if forall j :: 0 <= j < |rows| && rows[j].distance <= d ==> rows[j].isMatch {
        CountSame(rows, MatchWithin(d), Within(d));
      } else {
        var j :| 0 <= j < |rows| && rows[j].distance <= d && !rows[j].isMatch;
        CountStrict(rows, MatchWithin(d), Within(d), j);
      }
    }
  }

  /** A filter that keeps a row whenever a weaker one does, and drops one it keeps, counts fewer. */
  lemma {:induction false} CountStrict(rows: seq<Pair>, keep: Filter, wider: Filter, j: nat)
    requires forall p :: Keeps(keep, p) ==> Keeps(wider, p)
    requires j < |rows| && Keeps(wider, rows[j]) && !Keeps(keep, rows[j])
    ensures Count(rows, keep) < Count(rows, wider)
  {
    var init := rows[..|rows| - 1];
    if j == |rows| - 1 {
      CountMono(init, keep, wider);
    } else {
      assert init[j] == rows[j];
      CountStrict(init, keep, wider, j);
    }
  }

  /** recall_at_distance never decreases as d grows, for a positive denominator. */
  lemma RecallAtDistanceMono(rows: seq<Pair>, d: real, d': real, nMatches: Option<int>)
    requires d <= d' && Denominator(rows, nMatches) > 0
    ensures RecallAtDistance(rows, d, nMatches).Ok? && RecallAtDistance(rows, d', nMatches).Ok?
    ensures RecallAtDistance(rows, d, nMatches).value <= RecallAtDistance(rows, d', nMatches).value
  {
    CountMono(rows, MatchWithin(d), MatchWithin(d'));
    FractionMono(Count(rows, MatchWithin(d)), Count(rows, MatchWithin(d')), Denominator(rows, nMatches));
  }

  /** recall_at_distance with the inferred count fails exactly when no pair matches, and lies in [0, 1] otherwise. */
  lemma RecallAtDistanceBounds(rows: seq<Pair>, d: real)
    ensures RecallAtDistance(rows, d, None).Err? <==> forall j :: 0 <= j < |rows| ==> !rows[j].isMatch
    ensures RecallAtDistance(rows, d, None).Ok? ==> 0.0 <= RecallAtDistance(rows, d, None).value <= 1.0
  {
    CountZero(rows, IsMatch);
    CountMono(rows, MatchWithin(d), IsMatch);
    if MatchCount(rows) > 0 {
      FractionBounds(Count(rows, MatchWithin(d)), MatchCount(rows));
    }
  }

  /** Once d is at least every match's distance, recall_at_distance with the inferred count is 1. */
  lemma RecallAtDistanceFull(rows: seq<Pair>, d: real)
    requires exists j :: 0 <= j < |rows| && rows[j].isMatch
    requires forall j :: 0 <= j < |rows| && rows[j].isMatch ==> rows[j].distance <= d
    ensures RecallAtDistance(rows, d, None) == Ok(1.0)
  {
    var j :| 0 <= j < |rows| && rows[j].isMatch;
    CountPositive(rows, IsMatch, j);
    CountSame(rows, MatchWithin(d), IsMatch);
    FractionOne(Count(rows, MatchWithin(d)), MatchCount(rows));
  }
}
