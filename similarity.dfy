/** The pair scores: Jaccard similarity of the whitespace-token sets (`jaccard_udf`),
    Levenshtein distance, the edit score `1 - lev_dist / len_max` and the weighted
    `score_final`. Scores are exact rationals. */
module Similarity {
  import opened Strings

  /** `set(s.split())`: a set of non-empty whitespace-free tokens, empty exactly when
      `s` is all whitespace. */
  function TokenSet(s: string): (r: set<string>)
    ensures forall t :: t in r ==> IsToken(t)
    ensures r == {} <==> AllSpace(s)
  {
    var ts := Split(s);
    var r := set t | t in ts;
    assert ts != [] ==> ts[0] in r;
    r
  }

  /** A subset is no larger than its superset, and of equal size only when equal. */
  lemma {:induction false} SubsetCardinality<T>(a: set<T>, b: set<T>)
    requires a <= b
    ensures |a| <= |b|
    ensures |a| == |b| ==> a == b
    decreases |b|
  {
    if b != {} {
      var x :| x in b;
      SubsetCardinality(a - {x}, b - {x});
      assert |b - {x}| == |b| - 1;
      if x in a {
        assert |a - {x}| == |a| - 1;
        assert a == (a - {x}) + {x} && b == (b - {x}) + {x};
      } else {
        assert a - {x} == a;
      }
    }
  }

  /** A ratio of naturals with a positive denominator no smaller than the numerator
      lies in [0, 1], is 0 only for a zero numerator and 1 only for equal terms. */
  lemma {:induction false} RatioBounds(n: nat, m: nat)
    requires 0 < m && n <= m
    ensures var q := (n as real) / (m as real);
      0.0 <= q <= 1.0 && (q == 0.0 <==> n == 0) && (q == 1.0 <==> n == m)
  {
    var q := (n as real) / (m as real);
    assert q * (m as real) == n as real;
  }

  /** The intersection of two sets is no larger than their union, and as large only
      when the sets are equal. */
  lemma {:induction false} IntersectionUnion<T>(a: set<T>, b: set<T>)
    ensures |a * b| <= |a + b|
    ensures |a * b| == |a + b| <==> a == b
    ensures |a + b| == 0 <==> a == {} && b == {}
  {
    SubsetCardinality(a * b, a + b);
    if a == b {
      assert a * b == a + b;
    }
    if a != {} {
      var t :| t in a;
      assert t in a + b;
    }
    if a * b == a + b {
      assert forall t :: t in a ==> t in a + b;
      assert forall t :: t in b ==> t in a + b;
    }
  }

  /** `jaccard_udf`: the size of the intersection of the token sets over the size of
      their union, or 0.0 when the union is empty. */
  function Jaccard(s1: string, s2: string): (r: real)
    ensures 0.0 <= r <= 1.0
    ensures TokenSet(s1) + TokenSet(s2) == {} ==> r == 0.0
    ensures r == 1.0 <==> TokenSet(s1) == TokenSet(s2) && TokenSet(s1) != {}
    ensures r == 0.0 <==> TokenSet(s1) * TokenSet(s2) == {}
  {
    var a := TokenSet(s1);
    var b := TokenSet(s2);
    var inter := |a * b|;
    var union := |a + b|;
    IntersectionUnion(a, b);
    if union != 0 then RatioBounds(inter, union); (inter as real) / (union as real) else 0.0
  }

  /** Jaccard similarity does not depend on the order of its arguments. */
  lemma {:induction false} JaccardSymmetric(s1: string, s2: string)
    ensures Jaccard(s1, s2) == Jaccard(s2, s1)
  {
    assert TokenSet(s1) * TokenSet(s2) == TokenSet(s2) * TokenSet(s1);
    assert TokenSet(s1) + TokenSet(s2) == TokenSet(s2) + TokenSet(s1);
  }

  /** Jaccard similarity of a string with itself is 1.0 as soon as it has a token. */
  lemma {:induction false} JaccardSelf(s: string)
    ensures !AllSpace(s) ==> Jaccard(s, s) == 1.0
  {
    if !AllSpace(s) {
      var ts := Split(s);
      assert ts[0] in TokenSet(s);
    }
  }

  function Min3(x: nat, y: nat, z: nat): nat {
    if x <= y && x <= z then x else if y <= z then y else z
  }

  function Max(x: nat, y: nat): nat {
    if x >= y then x else y
  }

  /** The Levenshtein edit distance between the first `i` characters of `a` and the
      first `j` characters of `b` (insertions, deletions and substitutions of one
      character, each costing 1), by the standard recursion on the last characters. */
  function Distance(a: string, b: string, i: nat, j: nat): nat
    requires i <= |a| && j <= |b|
    decreases i + j
  {
    if i == 0 then j
    else if j == 0 then i
    else Min3(Distance(a, b, i - 1, j) + 1, Distance(a, b, i, j - 1) + 1,
              Distance(a, b, i - 1, j - 1) + (if a[i - 1] == b[j - 1] then 0 else 1))
  }

  /** The distance between prefixes is at most the longer prefix length. */
  lemma {:induction false} DistanceUpper(a: string, b: string, i: nat, j: nat)
    requires i <= |a| && j <= |b|
    ensures Distance(a, b, i, j) <= Max(i, j)
    decreases i + j
  {
    if i > 0 && j > 0 {
      DistanceUpper(a, b, i - 1, j - 1);
    }
  }

  /** The distance between prefixes is at least the difference of their lengths. */
  lemma {:induction false} DistanceLower(a: string, b: string, i: nat, j: nat)
    requires i <= |a| && j <= |b|
    ensures i <= j + Distance(a, b, i, j) && j <= i + Distance(a, b, i, j)
    decreases i + j
  {
    if i > 0 && j > 0 {
      DistanceLower(a, b, i - 1, j);
      DistanceLower(a, b, i, j - 1);
      DistanceLower(a, b, i - 1, j - 1);
    }
  }

  /** Spark's `levenshtein`: the distance between the whole strings. It is at most the
      longer length and at least the difference of the lengths. */
  function Levenshtein(a: string, b: string): (d: nat)
    ensures d <= Max(|a|, |b|)
    ensures |a| <= |b| + d && |b| <= |a| + d
  {
    DistanceUpper(a, b, |a|, |b|);
    DistanceLower(a, b, |a|, |b|);
    Distance(a, b, |a|, |b|)
  }

  /** Equal prefixes are at distance zero. */
  lemma {:induction false} DistanceSelf(a: string, b: string, i: nat)
    requires i <= |a| && i <= |b| && a[..i] == b[..i]
    ensures Distance(a, b, i, i) == 0
    decreases i
  {
    if i > 0 {
      assert a[..i - 1] == a[..i][..i - 1] && b[..i - 1] == b[..i][..i - 1];
      assert a[i - 1] == a[..i][i - 1] && b[i - 1] == b[..i][i - 1];
      DistanceSelf(a, b, i - 1);
    }
  }

  /** Prefixes at distance zero are equal. */
  lemma {:induction false} DistanceZero(a: string, b: string, i: nat, j: nat)
    requires i <= |a| && j <= |b| && Distance(a, b, i, j) == 0
    ensures i == j && a[..i] == b[..j]
    decreases i + j
  {
    if i > 0 && j > 0 {
      assert Distance(a, b, i - 1, j - 1) == 0 && a[i - 1] == b[j - 1];
      DistanceZero(a, b, i - 1, j - 1);
      assert a[..i] == a[..i - 1] + [a[i - 1]] && b[..j] == b[..j - 1] + [b[j - 1]];
    }
  }

  /** The distance is zero exactly between equal strings. */
  lemma {:induction false} LevenshteinZeroIff(a: string, b: string)
    ensures Levenshtein(a, b) == 0 <==> a == b
  {
    assert a[..|a|] == a && b[..|b|] == b;
    if a == b {
      DistanceSelf(a, b, |a|);
    } else if Levenshtein(a, b) == 0 {
      DistanceZero(a, b, |a|, |b|);
    }
  }

  /** The distance between prefixes is symmetric. */
  lemma {:induction false} DistanceSymmetric(a: string, b: string, i: nat, j: nat)
    requires i <= |a| && j <= |b|
    ensures Distance(a, b, i, j) == Distance(b, a, j, i)
    decreases i + j
  {
    if i > 0 && j > 0 {
      assert Distance(a, b, i - 1, j) == Distance(b, a, j, i - 1) by {
        DistanceSymmetric(a, b, i - 1, j);
      }
      assert Distance(a, b, i, j - 1) == Distance(b, a, j - 1, i) by {
        DistanceSymmetric(a, b, i, j - 1);
      }
      assert Distance(a, b, i - 1, j - 1) == Distance(b, a, j - 1, i - 1) by {
        DistanceSymmetric(a, b, i - 1, j - 1);
      }
      DistanceSymmetricStep(a, b, i, j);
    } else {
      DistanceEmptyPrefix(a, b, i, j);
    }
  }

  /** Against an empty prefix the distance is the other prefix's length, both ways. */
  lemma {:induction false} DistanceEmptyPrefix(a: string, b: string, i: nat, j: nat)
    requires i <= |a| && j <= |b| && (i == 0 || j == 0)
    ensures Distance(a, b, i, j) == Max(i, j) == Distance(b, a, j, i)
  {
  }

  /** The recursive case of `DistanceSymmetric`, from the three smaller cases. */
  lemma {:induction false} DistanceSymmetricStep(a: string, b: string, i: nat, j: nat)
    requires 0 < i <= |a| && 0 < j <= |b|
    requires Distance(a, b, i - 1, j) == Distance(b, a, j, i - 1)
    requires Distance(a, b, i, j - 1) == Distance(b, a, j - 1, i)
    requires Distance(a, b, i - 1, j - 1) == Distance(b, a, j - 1, i - 1)
    ensures Distance(a, b, i, j) == Distance(b, a, j, i)
  {
    DistanceStep(a, b, i, j);
    DistanceStep(b, a, j, i);
    Min3Swap(Distance(a, b, i - 1, j) + 1, Distance(a, b, i, j - 1) + 1,
             Distance(a, b, i - 1, j - 1) + Cost(a, b, i, j));
  }

  /** Substitution cost of the last characters of the two prefixes. */
  function Cost(a: string, b: string, i: nat, j: nat): nat
    requires 0 < i <= |a| && 0 < j <= |b|
  {
    if a[i - 1] == b[j - 1] then 0 else 1
  }

  lemma {:induction false} DistanceStep(a: string, b: string, i: nat, j: nat)
    requires 0 < i <= |a| && 0 < j <= |b|
    ensures Cost(a, b, i, j) == Cost(b, a, j, i)
    ensures Distance(a, b, i, j)
      == Min3(Distance(a, b, i - 1, j) + 1, Distance(a, b, i, j - 1) + 1,
              Distance(a, b, i - 1, j - 1) + Cost(a, b, i, j))
  {
  }

  lemma {:induction false} Min3Swap(x: nat, y: nat, z: nat)
    ensures Min3(x, y, z) == Min3(y, x, z)
  {
  }

  /** The distance does not depend on the order of its arguments. */
  lemma {:induction false} LevenshteinSymmetric(a: string, b: string)
    ensures Levenshtein(a, b) == Levenshtein(b, a)
  {
    DistanceSymmetric(a, b, |a|, |b|);
  }

  /** The distance computed row by row, as a dynamic-programming table keeping only the
      previous row: after `i` rows, `prev[j]` is the distance between the first `i`
      characters of `a` and the first `j` of `b`. */
  method LevenshteinTable(a: string, b: string) returns (d: nat)
    ensures d == Levenshtein(a, b)
  {
    var prev := seq(|b| + 1, j => j);
    var i := 0;
    while i < |a|
      invariant i <= |a|
      invariant |prev| == |b| + 1
      invariant forall j {:trigger prev[j]} :: 0 <= j <= |b| ==> prev[j] == Distance(a, b, i, j)
    {
      var cur := [i + 1];
      var j := 1;
      while j <= |b|
        invariant 1 <= j <= |b| + 1
        invariant |cur| == j
        invariant forall k {:trigger cur[k]} :: 0 <= k < j ==> cur[k] == Distance(a, b, i + 1, k)
      {
        var cost := if a[i] == b[j - 1] then 0 else 1;
        var v := Min3(prev[j] + 1, cur[j - 1] + 1, prev[j - 1] + cost);
        assert v == Distance(a, b, i + 1, j);
        cur := cur + [v];
        j := j + 1;
      }
      prev := cur;
      i := i + 1;
    }
    d := prev[|b|];
  }

  /** `len_max`: the length of the first string when it is strictly longer, else the
      length of the second. */
  function LenMax(s1: string, s2: string): (n: nat)
    ensures n >= |s1| && n >= |s2|
    ensures n == |s1| || n == |s2|
  {
    if |s1| > |s2| then |s1| else |s2|
  }

  /** `lev_score = 1 - lev_dist / len_max`. The division needs a non-empty string. */
  function LevScore(s1: string, s2: string): (r: real)
    requires |s1| > 0 || |s2| > 0
    ensures 0.0 <= r <= 1.0
    ensures r == 1.0 <==> s1 == s2
  {
    var d := Levenshtein(s1, s2);
    var m := LenMax(s1, s2);
    LevenshteinZeroIff(s1, s2);
    RatioBounds(d, m);
    1.0 - (d as real) / (m as real)
  }

  /** `score_final = 0.75 * jaccard + 0.25 * lev_score`. */
  function ScoreFinal(jaccard: real, levScore: real): (r: real)
    ensures 0.0 <= jaccard <= 1.0 && 0.0 <= levScore <= 1.0 ==> 0.0 <= r <= 1.0
    ensures jaccard <= 1.0 && levScore <= 1.0 ==> (r == 1.0 <==> jaccard == 1.0 && levScore == 1.0)
  {
    0.75 * jaccard + 0.25 * levScore
  }

  /** The composite score of two fingerprints. */
  function PairScore(sigA: string, sigB: string): (r: real)
    requires |sigA| > 0 || |sigB| > 0
    ensures 0.0 <= r <= 1.0
    ensures r == 1.0 ==> sigA == sigB
    ensures sigA == sigB && !AllSpace(sigA) ==> r == 1.0
  {
    JaccardSelf(sigA);
    ScoreFinal(Jaccard(sigA, sigB), LevScore(sigA, sigB))
  }

  /** A Jaccard similarity of 0.8 and an edit score of 0.9 give 0.825. */
  lemma ScoreFinalExample()
    ensures ScoreFinal(0.8, 0.9) == 0.825
  {
  }
}
