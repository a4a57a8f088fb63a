/** The combinatorial helpers of slice_graph.py: the row of Pascal's
    triangle behind the Bezier curves of the slice plots, and the list of
    supra-graph edges of a (node, node, time) array. */
module SliceGraph {
  import opened Seqs
  import opened Grid

  // ---------------------------------------------------------------------
  // Binomial coefficients

  /** C(n, k) by Pascal's rule. */
  function Binomial(n: nat, k: nat): nat
  {
    if k == 0 then 1
    else if n == 0 then 0
    else Binomial(n - 1, k - 1) + Binomial(n - 1, k)
  }

  lemma {:induction false} BinomialEnds(n: nat)
    ensures Binomial(n, 0) == 1 && Binomial(n, n) == 1
    ensures n >= 1 ==> Binomial(n, 1) == n
  {
    if n > 0 {
      BinomialEnds(n - 1);
      BinomialAbove(n - 1, n);
    }
  }

  /** C(n, k) is 0 for k > n. */
  lemma {:induction false} BinomialAbove(n: nat, k: nat)
    requires k > n
    ensures Binomial(n, k) == 0
  {
    if n > 0 {
      BinomialAbove(n - 1, k - 1);
      BinomialAbove(n - 1, k);
    }
  }

  /** Absorption: k C(n, k) = n C(n - 1, k - 1). */
  lemma {:induction false} Absorption(n: nat, k: nat)
    requires n >= 1 && k >= 1
    ensures k * Binomial(n, k) == n * Binomial(n - 1, k - 1)
  {
    if n == 1 {
      if k >= 2 {
        BinomialAbove(0, k - 1);
        BinomialAbove(1, k);
      }
    } else if k == 1 {
      BinomialEnds(n);
      BinomialEnds(n - 1);
    } else {
      Absorption(n - 1, k - 1);
      Absorption(n - 1, k);
      assert Binomial(n, k) == Binomial(n - 1, k - 1) + Binomial(n - 1, k);
      assert Binomial(n - 1, k - 1) == Binomial(n - 2, k - 2) + Binomial(n - 2, k - 1);
      AbsorptionAlgebra(n, k, Binomial(n - 1, k - 1), Binomial(n - 1, k),
                        Binomial(n - 2, k - 2), Binomial(n - 2, k - 1));
    }
  }

  lemma AbsorptionAlgebra(n: int, k: int, X: int, Y: int, a: int, b: int)
    requires (k - 1) * X == (n - 1) * a && k * Y == (n - 1) * b && X == a + b
    ensures k * (X + Y) == n * X
  {
    calc {
      k * (X + Y);
      k * X + k * Y;
      (k - 1) * X + X + k * Y;
      (n - 1) * a + X + (n - 1) * b;
      (n - 1) * (a + b) + X;
      n * X;
    }
  }

  /** The step pascal_row takes: (n - j) C(n, j) = n C(n - 1, j). */
  lemma Complement(n: nat, j: nat)
    requires n >= 1 && j <= n
    ensures (n - j) * Binomial(n, j) == n * Binomial(n - 1, j)
  {
    if j >= 1 {
      Absorption(n, j);
      assert Binomial(n, j) == Binomial(n - 1, j - 1) + Binomial(n - 1, j);
      ComplementAlgebra(n, j, Binomial(n, j), Binomial(n - 1, j - 1), Binomial(n - 1, j));
    } else {
      BinomialEnds(n);
      BinomialEnds(n - 1);
    }
  }

  lemma ComplementAlgebra(n: int, j: int, B: int, X: int, Y: int)
    requires B == X + Y && j * B == n * X
    ensures (n - j) * B == n * Y
  {
    calc {
      (n - j) * B;
      n * B - j * B;
      n * (X + Y) - n * X;
      n * Y;
    }
  }

  /** One step of the multiplicative formula: C(n, d) = C(n, d - 1) (n - d + 1) / d. */
  lemma NextBinomial(n: nat, d: nat)
    requires 1 <= d <= n
    ensures Binomial(n, d) as real == Binomial(n, d - 1) as real * (n - d + 1) as real / d as real
  {
    NextBinomialInt(n, d);
    RealStep(Binomial(n, d - 1), n - d + 1, d, Binomial(n, d));
  }

  lemma NextBinomialInt(n: nat, d: nat)
    requires 1 <= d <= n
    ensures Binomial(n, d - 1) * (n - d + 1) == d * Binomial(n, d)
  {
    Absorption(n, d);
    Complement(n, d - 1);
  }

  lemma RealStep(prev: int, m: int, d: int, next: int)
    requires d > 0 && prev * m == d * next
    ensures next as real == prev as real * m as real / d as real
  {
    CastProduct(prev, m);
    CastProduct(d, next);
    DivBack(prev as real * m as real, d as real, next as real);
  }

  lemma CastProduct(x: int, y: int)
    ensures (x * y) as real == x as real * y as real
  {
  }

  lemma DivBack(p: real, d: real, B: real)
    requires d > 0.0 && p == d * B
    ensures p / d == B
  {
  }

  /** Row n of Pascal's triangle reads the same backwards. */
  lemma {:induction false} BinomialSymmetric(n: nat, k: nat)
    requires k <= n
    ensures Binomial(n, k) == Binomial(n, n - k)
  {
    if k == 0 || k == n {
      BinomialEnds(n);
    } else {
      BinomialSymmetric(n - 1, k - 1);
      BinomialSymmetric(n - 1, k);
    }
  }

  // ---------------------------------------------------------------------
  // pascal_row

  function Reverse<T>(s: seq<T>): (r: seq<T>)
    ensures |r| == |s| && forall k :: 0 <= k < |s| ==> r[k] == s[|s| - 1 - k]
  {
    seq(|s|, k requires 0 <= k < |s| => s[|s| - 1 - k])
  }

  /** pascal_row(n): the first half of the row by the multiplicative
      formula, then the mirror image (without repeating the middle entry
      when n is even). A negative n, as make_bezier passes for no control
      points, gives [1] or [1, 1] by the parity of n. */
  method PascalRow(n: int) returns (result: seq<real>)
    ensures n >= 0 ==> |result| == n + 1
    ensures n >= 0 ==> forall k :: 0 <= k <= n ==> result[k] == Binomial(n, k) as real
    ensures n < 0 ==> result == if n % 2 == 0 then [1.0] else [1.0, 1.0]
  {
    var h := n / 2;
    assert n >= 0 ==> 0 <= h && 2 * h <= n <= 2 * h + 1;
    assert n < 0 ==> h < 1;
    result := [1.0];
    var x: real := 1.0;
    var numerator := n;
    var d := 1;
    while d <= h
      invariant 1 <= d && (n >= 0 ==> d <= h + 1) && (n < 0 ==> d == 1)
      invariant |result| == d && numerator == n - d + 1
      invariant n >= 0 ==> x == Binomial(n, d - 1) as real
      invariant n >= 0 ==> forall k :: 0 <= k < d ==> result[k] == Binomial(n, k) as real
      invariant n < 0 ==> result == [1.0]
    {
      NextBinomial(n, d);
      x := x * numerator as real;
      x := x / d as real;
      result := result + [x];
      numerator := numerator - 1;
      d := d + 1;
    }
    if n < 0 {
      result := if n % 2 == 0 then result else result + Reverse(result);
    } else if n % 2 == 0 {
      MirrorHalf(n, h, result, true);
      result := result + Reverse(result[..h]);
    } else {
      MirrorHalf(n, h, result, false);
      result := result + Reverse(result);
    }
  }

  /** The first half of row n, mirrored, is the whole row. */
  lemma MirrorHalf(n: nat, h: nat, half: seq<real>, even: bool)
    requires n == (if even then 2 * h else 2 * h + 1)
    requires |half| == h + 1 && forall k :: 0 <= k <= h ==> half[k] == Binomial(n, k) as real
    ensures var r := if even then half + Reverse(half[..h]) else half + Reverse(half);
            |r| == n + 1 && forall k :: 0 <= k <= n ==> r[k] == Binomial(n, k) as real
  {
    var r := if even then half + Reverse(half[..h]) else half + Reverse(half);
    forall k | h < k <= n ensures r[k] == Binomial(n, k) as real {
      BinomialSymmetric(n, k);
      assert r[k] == half[n - k];
    }
  }

  /** The row has n + 1 entries, equal from both ends, starting and ending
      with 1. */
  lemma PascalRowShape(n: nat, result: seq<real>)
    requires |result| == n + 1 && forall k :: 0 <= k <= n ==> result[k] == Binomial(n, k) as real
    ensures result[0] == 1.0 && result[n] == 1.0
    ensures forall k :: 0 <= k <= n ==> result[k] == result[n - k]
  {
    BinomialEnds(n);
    forall k | 0 <= k <= n ensures result[k] == result[n - k] {
      BinomialSymmetric(n, k);
    }
  }

  /** The coefficient row make_bezier builds: one binomial coefficient per
      control point (and two for an empty list of points). */
  method MakeBezierCoefficients<P>(xys: seq<P>) returns (combinations: seq<real>)
    ensures |xys| >= 1 ==> |combinations| == |xys|
    ensures |xys| >= 1 ==> forall k :: 0 <= k < |xys| ==> combinations[k] == Binomial(|xys| - 1, k) as real
    ensures |xys| == 0 ==> combinations == [1.0, 1.0]
  {
    combinations := PascalRow(|xys| - 1);
  }

  // ---------------------------------------------------------------------
  // edgeListFromMatrix

  /** The positions (i, j, t) with A[i][j][t] > gtth, in row-major order. */
  function Above(A: Graphlet, a: nat, b: nat, c: nat, gtth: real): seq<(nat, nat, nat)>
  {
    Filter(Triples(a, b, c), (p: (nat, nat, nat)) => At(A, p.0, p.1, p.2) > gtth)
  }

  /** edgeListFromMatrix: an edge between the supra-nodes i + t a and
      j + t a for every entry above the threshold, where a = A.shape[0]. */
  function EdgeListFromMatrix(A: Graphlet, a: nat, b: nat, c: nat, gtth: real): (r: seq<(nat, nat)>)
    ensures |r| == |Above(A, a, b, c, gtth)|
  {
    var P := Above(A, a, b, c, gtth);
    seq(|P|, k requires 0 <= k < |P| => (SupraIndex(P[k].0, P[k].2, a), SupraIndex(P[k].1, P[k].2, a)))
  }

  /** The positions listed are exactly those above the threshold, in
      row-major order. */
  lemma AboveFacts(A: Graphlet, a: nat, b: nat, c: nat, gtth: real)
    ensures forall x: (nat, nat, nat) :: x in Above(A, a, b, c, gtth) <==>
              x.0 < a && x.1 < b && x.2 < c && At(A, x.0, x.1, x.2) > gtth
    ensures SortedBy<(nat, nat, nat)>(Above(A, a, b, c, gtth), Less3)
  {
    TriplesFacts(a, b, c);
    FilterSorted<(nat, nat, nat)>(Triples(a, b, c), (p: (nat, nat, nat)) => At(A, p.0, p.1, p.2) > gtth, Less3);
  }

  /** Each edge of a square array names the entry it comes from: both
      supra-nodes lie in the same time slice, and the entry there is above
      the threshold. */
  lemma EdgeListSound(A: Graphlet, n: nat, c: nat, gtth: real, k: nat)
    requires Shaped(A, n, n, c) && k < |EdgeListFromMatrix(A, n, n, c, gtth)|
    ensures var e := EdgeListFromMatrix(A, n, n, c, gtth)[k];
            e.0 / n == e.1 / n && e.0 / n < c && A[e.0 % n][e.1 % n][e.0 / n] > gtth
  {
    var P := Above(A, n, n, c, gtth);
    AboveFacts(A, n, n, c, gtth);
    assert P[k] in P;
    SupraIndexInverse(P[k].0, P[k].2, n);
    SupraIndexInverse(P[k].1, P[k].2, n);
  }

  /** Every entry above the threshold gives its edge. */
  lemma EdgeListComplete(A: Graphlet, n: nat, c: nat, gtth: real, i: nat, j: nat, t: nat)
    requires Shaped(A, n, n, c) && i < n && j < n && t < c && A[i][j][t] > gtth
    ensures (SupraIndex(i, t, n), SupraIndex(j, t, n)) in EdgeListFromMatrix(A, n, n, c, gtth)
  {
    var P := Above(A, n, n, c, gtth);
    AboveFacts(A, n, n, c, gtth);
    assert (i, j, t) in P;
    var k :| 0 <= k < |P| && P[k] == (i, j, t);
    assert EdgeListFromMatrix(A, n, n, c, gtth)[k] == (SupraIndex(i, t, n), SupraIndex(j, t, n));
  }

  /** Distinct entries give distinct edges. */
  lemma EdgeListDistinct(A: Graphlet, n: nat, c: nat, gtth: real)
    requires Shaped(A, n, n, c)
    ensures var r := EdgeListFromMatrix(A, n, n, c, gtth);
            forall p, q :: 0 <= p < q < |r| ==> r[p] != r[q]
  {
    var P := Above(A, n, n, c, gtth);
    var r := EdgeListFromMatrix(A, n, n, c, gtth);
    AboveFacts(A, n, n, c, gtth);
    SortedDistinct3(P);
    forall p, q | 0 <= p < q < |r| ensures r[p] != r[q] {
      assert P[p] in P && P[q] in P;
      SupraIndexInverse(P[p].0, P[p].2, n);
      SupraIndexInverse(P[p].1, P[p].2, n);
      SupraIndexInverse(P[q].0, P[q].2, n);
      SupraIndexInverse(P[q].1, P[q].2, n);
    }
  }
}
