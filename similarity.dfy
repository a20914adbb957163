/**
 * Loader.calculateSimilarity (Loader.java:210-223): the overlap of two word-count tables,
 * the sum over the shared words of the smaller count, divided by the smaller of the two totals.
 */
module Similarity {
  type Counts = map<string, int>

  /** The sum of the values of a table, in no particular order. */
  ghost function Sum(m: Counts): int
    decreases |m.Keys|
  {
    if m == map[] then 0
    else
      var w :| w in m;
      m[w] + Sum(m - {w})
  }

  /** Any key may be taken out first: the sum does not depend on the order of the keys. */
  lemma {:induction false} SumRemove(m: Counts, w: string)
    requires w in m
    ensures Sum(m) == m[w] + Sum(m - {w})
    decreases |m.Keys|
  {
    var x :| x in m && Sum(m) == m[x] + Sum(m - {x});
    if x != w {
      assert w in m - {x};
      SumRemove(m - {x}, w);
      assert x in m - {w};
      SumRemove(m - {w}, x);
      assert m - {x} - {w} == m - {w} - {x};
    }
  }

  /** A sum of non-negative values is non-negative, and positive when some value is. */
  lemma {:induction false} SumNonNegative(m: Counts)
    requires forall w :: w in m ==> m[w] >= 0
    ensures Sum(m) >= 0
    ensures (exists w :: w in m && m[w] > 0) ==> Sum(m) > 0
    decreases |m.Keys|
  {
    if m != map[] {
      var x :| x in m && Sum(m) == m[x] + Sum(m - {x});
      SumNonNegative(m - {x});
      if exists w :: w in m && m[w] > 0 {
        var w :| w in m && m[w] > 0;
        if w != x {
          assert w in m - {x};
        }
      }
    }
  }

  /** A table below another, key by key and on fewer keys, with non-negative values, has the smaller sum. */
  lemma {:induction false} SumMonotone(small: Counts, big: Counts)
    requires small.Keys <= big.Keys
    requires forall w :: w in small ==> 0 <= small[w] <= big[w]
    requires forall w :: w in big ==> big[w] >= 0
    ensures Sum(small) <= Sum(big)
    decreases |big.Keys|
  {
    if big != map[] {
      var x :| x in big;
      SumRemove(big, x);
      if x in small {
        SumRemove(small, x);
        SumMonotone(small - {x}, big - {x});
      } else {
        assert small.Keys <= (big - {x}).Keys;
        SumMonotone(small, big - {x});
      }
    } else {
      assert small == map[];
    }
  }

  function Min(a: int, b: int): int
  {
    if a <= b then a else b
  }

  /** For each word in both tables, the smaller of its two counts. */
  function Overlap(m1: Counts, m2: Counts): (o: Counts)
    ensures o.Keys == m1.Keys * m2.Keys
    ensures forall w :: w in o ==> o[w] <= m1[w] && o[w] <= m2[w]
  {
    map w | w in m1.Keys * m2.Keys :: Min(m1[w], m2[w])
  }

  /** The counts are those of words that occur: every value is positive and some word occurs. */
  predicate Occurring(m: Counts)
  {
    m != map[] && forall w :: w in m ==> m[w] > 0
  }

  /**
   * The similarity score. The source divides two `int`s converted to double; tables with no
   * words would divide by zero, so both must hold some word.
   */
  ghost function CalculateSimilarity(m1: Counts, m2: Counts): (r: real)
    requires Occurring(m1) && Occurring(m2)
    ensures 0.0 <= r <= 1.0
  {
    TotalsPositive(m1, m2);
    OverlapAtMostTotals(m1, m2);
    Ratio(Sum(Overlap(m1, m2)), Min(Sum(m1), Sum(m2)))
  }

  /** The division of the source: both `int`s are converted to double first. */
  function Ratio(a: int, b: int): (r: real)
    requires 0 <= a <= b && 0 < b
    ensures 0.0 <= r <= 1.0
    ensures r == 0.0 <==> a == 0
    ensures r == 1.0 <==> a == b
    ensures r * (b as real) == a as real
  {
    var q := (a as real) / (b as real);
    assert q * (b as real) == a as real;
    q
  }

  lemma TotalsPositive(m1: Counts, m2: Counts)
    requires Occurring(m1) && Occurring(m2)
    ensures Sum(m1) > 0 && Sum(m2) > 0
  {
    var w1 :| w1 in m1;
    var w2 :| w2 in m2;
    SumNonNegative(m1);
    SumNonNegative(m2);
  }

  /** The overlap never exceeds either total. */
  lemma OverlapAtMostTotals(m1: Counts, m2: Counts)
    requires Occurring(m1) && Occurring(m2)
    ensures 0 <= Sum(Overlap(m1, m2)) <= Min(Sum(m1), Sum(m2))
  {
    var o := Overlap(m1, m2);
    SumNonNegative(o);
    SumMonotone(o, m1);
    SumMonotone(o, m2);
  }

  /** Comparing `a` with `b` gives the same score as comparing `b` with `a`. */
  lemma SimilaritySymmetric(m1: Counts, m2: Counts)
    requires Occurring(m1) && Occurring(m2)
    ensures CalculateSimilarity(m1, m2) == CalculateSimilarity(m2, m1)
  {
    assert Overlap(m1, m2) == Overlap(m2, m1);
  }

  /** A page compared with itself scores 1. */
  lemma SimilarityWithItself(m: Counts)
    requires Occurring(m)
    ensures CalculateSimilarity(m, m) == 1.0
  {
    assert Overlap(m, m) == m;
    TotalsPositive(m, m);
    OverlapAtMostTotals(m, m);
  }

  /** Pages that share no word score 0. */
  lemma SimilarityOfDisjoint(m1: Counts, m2: Counts)
    requires Occurring(m1) && Occurring(m2)
    requires m1.Keys !! m2.Keys
    ensures CalculateSimilarity(m1, m2) == 0.0
  {
    assert Overlap(m1, m2) == map[];
  }

  /** Pages that share a word score above 0. */
  lemma SimilarityOfOverlapping(m1: Counts, m2: Counts, w: string)
    requires Occurring(m1) && Occurring(m2)
    requires w in m1 && w in m2
    ensures CalculateSimilarity(m1, m2) > 0.0
  {
    var o := Overlap(m1, m2);
    assert w in o && o[w] > 0;
    SumNonNegative(o);
    OverlapAtMostTotals(m1, m2);
  }
}
