/** Time-varying connectivity derivation (teneto/derive/derive.py):
    method dispatch, the weight matrices of the weight-based methods, the
    distance weighting, and temporal-derivative coupling. The weighted
    Pearson correlation itself is a parameter `corr` of the model. */
module Derive {
  import opened Wrappers
  import opened Seqs
  import opened Grid

  // ---------------------------------------------------------------------
  // Method names

  /** The predefined methods, after alias normalisation. */
  datatype Method = Jackknife | SlidingWindow | TaperedSlidingWindow | Distance | TemporalDerivative

  /** The method strings derive recognises, with their aliases. */
  function ParseMethod(name: string): (r: Result<Method>)
    ensures r == Ok(Jackknife) <==> name == "jackknife"
    ensures r == Ok(SlidingWindow) <==> name == "sliding window" || name == "slidingwindow"
    ensures r == Ok(TaperedSlidingWindow) <==>
              name == "tapered sliding window" || name == "taperedslidingwindow"
    ensures r == Ok(Distance) <==>
              name == "distance" || name == "spatial distance" || name == "node distance" ||
              name == "nodedistance" || name == "spatialdistance"
    ensures r == Ok(TemporalDerivative) <==>
              name == "temporal derivative" || name == "temporalderivative"
    ensures r.Err? ==> r.error == UnknownMethod
  {
    if name == "jackknife" then Ok(Jackknife)
    else if name == "sliding window" || name == "slidingwindow" then Ok(SlidingWindow)
    else if name == "tapered sliding window" || name == "taperedslidingwindow" then Ok(TaperedSlidingWindow)
    else if name == "distance" || name == "spatial distance" || name == "node distance" ||
            name == "nodedistance" || name == "spatialdistance" then Ok(Distance)
    else if name == "temporal derivative" || name == "temporalderivative" then Ok(TemporalDerivative)
    else Err(UnknownMethod)
  }

  /** The spelling without spaces, which the documentation lists. */
  function MethodName(m: Method): string
  {
    match m
    case Jackknife => "jackknife"
    case SlidingWindow => "slidingwindow"
    case TaperedSlidingWindow => "taperedslidingwindow"
    case Distance => "distance"
    case TemporalDerivative => "temporalderivative"
  }

  /** Every method is selected by its documented name. */
  lemma ParseMethodName(m: Method)
    ensures ParseMethod(MethodName(m)) == Ok(m)
  {
    match m
    case Jackknife =>
    case SlidingWindow => assert MethodName(m) != "jackknife";
    case TaperedSlidingWindow => assert MethodName(m) != "jackknife";
    case Distance => assert MethodName(m) != "jackknife";
    case TemporalDerivative => assert MethodName(m) != "jackknife";
  }

  // ---------------------------------------------------------------------
  // Jackknife weights

  /** The leave-one-out weighting: row r weights every time point but r. */
  function JackknifeMatrix(T: nat): Matrix
  {
    seq(T, r requires 0 <= r < T => seq(T, c requires 0 <= c < T => if r == c then 0.0 else 1.0))
  }

  /** np.ones([T, T]) followed by fill_diagonal(weights, 0). */
  method JackknifeWeights(T: nat) returns (w: Matrix)
    ensures w == JackknifeMatrix(T)
  {
    var a := new real[T, T]((_, _) => 1.0);
    for d := 0 to T
      invariant forall r, c :: 0 <= r < T && 0 <= c < T ==>
                  a[r, c] == (if r == c && r < d then 0.0 else 1.0)
    {
      a[d, d] := 0.0;
    }
    w := seq(T, r requires 0 <= r < T reads a => seq(T, c requires 0 <= c < T reads a => a[r, c]));
    forall r | 0 <= r < T ensures w[r] == JackknifeMatrix(T)[r] {
      assert forall c :: 0 <= c < T ==> w[r][c] == JackknifeMatrix(T)[r][c];
    }
  }

  /** Each jackknife row leaves out exactly its own time point:
      T x T, zero diagonal, ones elsewhere, so every row sums to T - 1. */
  lemma JackknifeRows(T: nat)
    ensures IsMatrix(JackknifeMatrix(T), T, T)
    ensures forall r, c :: 0 <= r < T && 0 <= c < T ==>
              (JackknifeMatrix(T)[r][c] == 0.0 <==> r == c)
    ensures forall r :: 0 <= r < T ==> Sum(JackknifeMatrix(T)[r]) == (T - 1) as real
  {
    forall r | 0 <= r < T ensures Sum(JackknifeMatrix(T)[r]) == (T - 1) as real {
      SumLeaveOneOut(JackknifeMatrix(T)[r], r);
    }
  }

  /** A row of ones with a single zero sums to its length minus one. */
  lemma {:induction false} SumLeaveOneOut(s: seq<real>, r: nat)
    requires r < |s|
    requires forall c :: 0 <= c < |s| ==> s[c] == (if c == r then 0.0 else 1.0)
    ensures Sum(s) == (|s| - 1) as real
  {
    if r == 0 {
      SumConstant(s[1..], 1.0);
    } else {
      SumLeaveOneOut(s[1..], r - 1);
    }
  }

  // ---------------------------------------------------------------------
  // Sliding windows (plain and tapered)

  /** np.roll: element c of the result is v[c - s], indices taken cyclically. */
  function Roll(v: seq<real>, s: int): (r: seq<real>)
    ensures |r| == |v|
  {
    seq(|v|, c requires 0 <= c < |v| => v[(c - s) % |v|])
  }

  /** The weight rows of a window of profile `taper` sliding over T time
      points: row s carries taper[c - s] at columns s .. s + |taper| - 1
      and zero elsewhere. */
  function WindowMatrix(T: nat, taper: seq<real>): (w: Matrix)
    requires |taper| <= T
  {
    seq(T - |taper| + 1, s requires 0 <= s < T - |taper| + 1 =>
      seq(T, c requires 0 <= c < T =>
        if s <= c < s + |taper| then taper[c - s] else 0.0))
  }

  /** Rolling the zero-padded window by at most T - k never wraps the
      window around the end of the row. */
  lemma RollNoWrap(base: seq<real>, k: nat, s: nat, c: nat)
    requires k <= |base| && s <= |base| - k && c < |base|
    requires forall x :: k <= x < |base| ==> base[x] == 0.0
    ensures Roll(base, s)[c] == (if s <= c < s + k then base[c - s] else 0.0)
  {
    var T := |base|;
    if c < s {
      ModWrap(c - s, T);
    } else {
      ModId(c - s, T);
    }
  }

  lemma ModWrap(x: int, T: int)
    requires 0 < T && -T <= x < 0
    ensures x % T == x + T
  {
  }

  lemma ModId(x: int, T: int)
    requires 0 <= x < T
    ensures x % T == x
  {
  }

  /** weightat0 = np.zeros(T); weightat0[0:k] = taper. */
  method WindowBase(T: nat, taper: seq<real>) returns (base: seq<real>)
    requires |taper| <= T
    ensures |base| == T
    ensures forall c :: 0 <= c < T ==> base[c] == (if c < |taper| then taper[c] else 0.0)
  {
    var a := new real[T](_ => 0.0);
    forall c | 0 <= c < |taper| {
      a[c] := taper[c];
    }
    base := a[..];
  }

  /** [np.roll(weightat0, s) for s in range(0, count)]. */
  method RollRows(base: seq<real>, count: nat) returns (w: Matrix)
    ensures |w| == count
    ensures forall s :: 0 <= s < count ==> w[s] == Roll(base, s)
  {
    w := [];
    var s := 0;
    while s < count
      invariant 0 <= s <= count && |w| == s
      invariant forall x :: 0 <= x < s ==> w[x] == Roll(base, x)
    {
      w := w + [Roll(base, s)];
      s := s + 1;
    }
  }

  /** The stacked rotations of the zero-padded taper are the window matrix. */
  method WindowWeights(T: nat, taper: seq<real>) returns (w: Matrix)
    requires |taper| <= T
    ensures w == WindowMatrix(T, taper)
  {
    var base := WindowBase(T, taper);
    w := RollRows(base, T - |taper| + 1);
    var spec := WindowMatrix(T, taper);
    forall s | 0 <= s < |w| ensures w[s] == spec[s] {
      forall c | 0 <= c < T ensures w[s][c] == spec[s][c] {
        RollNoWrap(base, |taper|, s, c);
      }
    }
  }

  function Ones(k: nat): seq<real>
  {
    seq(k, _ => 1.0)
  }

  /** weightfun_sliding_window: a missing window size is a KeyError; a
      negative one or one longer than the data cannot be placed in the
      zero vector and raises. */
  function SlidingWindowSpec(T: nat, windowsize: Option<int>): Result<Matrix>
  {
    match windowsize
    case None => Err(MissingKey("windowsize"))
    case Some(k) =>
      if k < 0 || k > T then Err(BadWindow) else Ok(WindowMatrix(T, Ones(k)))
  }

  method SlidingWindowWeights(T: nat, windowsize: Option<int>) returns (r: Result<Matrix>)
    ensures r == SlidingWindowSpec(T, windowsize)
  {
    if windowsize.None? {
      return Err(MissingKey("windowsize"));
    }
    var k := windowsize.value;
    if k < 0 || k > T {
      return Err(BadWindow);
    }
    var w := WindowWeights(T, Ones(k));
    r := Ok(w);
  }

  /** A window of size k <= T gives T - k + 1 rows; row s is 1 exactly at
      columns s .. s + k - 1. */
  lemma SlidingWindowRows(T: nat, k: nat)
    requires k <= T
    ensures SlidingWindowSpec(T, Some(k)).Ok?
    ensures IsMatrix(SlidingWindowSpec(T, Some(k)).value, T - k + 1, T)
    ensures forall s, c :: 0 <= s < T - k + 1 && 0 <= c < T ==>
              SlidingWindowSpec(T, Some(k)).value[s][c] == (if s <= c < s + k then 1.0 else 0.0)
    ensures forall s :: 0 <= s < T - k + 1 ==> Sum(SlidingWindowSpec(T, Some(k)).value[s]) == k as real
  {
    var w := SlidingWindowSpec(T, Some(k)).value;
    forall s | 0 <= s < T - k + 1 ensures Sum(w[s]) == k as real {
      SumWindow(w[s], s, k);
    }
  }

  /** A row that is 1 on a block of k columns and 0 elsewhere sums to k. */
  lemma {:induction false} SumWindow(row: seq<real>, s: nat, k: nat)
    requires s + k <= |row|
    requires forall c :: 0 <= c < |row| ==> row[c] == (if s <= c < s + k then 1.0 else 0.0)
    ensures Sum(row) == k as real
    decreases |row|
  {
    if |row| > 0 {
      if s > 0 {
        SumWindow(row[1..], s - 1, k);
      } else if k > 0 {
        SumWindow(row[1..], 0, k - 1);
      } else {
        SumConstant(row, 0.0);
      }
    }
  }

  /** The points at which the taper density is evaluated:
      np.arange(-(k - 1) / 2, k / 2), i.e. k points, spaced 1, centred on 0. */
  function TaperAbscissa(k: nat): (x: seq<real>)
    ensures |x| == k
  {
    seq(k, i requires 0 <= i < k => i as real - (k - 1) as real / 2.0)
  }

  /** The abscissa starts at -(k - 1)/2, steps by 1, and is symmetric about 0. */
  lemma TaperAbscissaFacts(k: nat)
    ensures k > 0 ==> TaperAbscissa(k)[0] == -((k - 1) as real) / 2.0
    ensures forall i :: 0 <= i < k - 1 ==> TaperAbscissa(k)[i + 1] - TaperAbscissa(k)[i] == 1.0
    ensures forall i :: 0 <= i < k ==> TaperAbscissa(k)[i] == -TaperAbscissa(k)[k - 1 - i]
  {
  }

  /** The taper: the density evaluated at the abscissa. */
  function Taper(k: nat, density: real -> real): (taper: seq<real>)
    ensures |taper| == k
  {
    var x := TaperAbscissa(k);
    seq(k, i requires 0 <= i < k => density(x[i]))
  }

  /** A density symmetric about 0 gives a taper symmetric about its midpoint. */
  lemma TaperSymmetric(k: nat, density: real -> real)
    requires forall y :: density(-y) == density(y)
    ensures forall i :: 0 <= i < k ==> Taper(k, density)[i] == Taper(k, density)[k - 1 - i]
  {
    TaperAbscissaFacts(k);
    forall i | 0 <= i < k ensures Taper(k, density)[i] == Taper(k, density)[k - 1 - i] {
      var x := TaperAbscissa(k);
      assert density(x[i]) == density(-x[k - 1 - i]);
    }
  }

  function TaperedSlidingWindowSpec(T: nat, windowsize: Option<int>, density: real -> real): Result<Matrix>
  {
    match windowsize
    case None => Err(MissingKey("windowsize"))
    case Some(k) =>
      if k < 0 || k > T then Err(BadWindow) else Ok(WindowMatrix(T, Taper(k, density)))
  }

  /** weightfun_tapered_sliding_window; also returns the taper and its
      abscissa, which the source records in its report. */
  method TaperedSlidingWindowWeights(T: nat, windowsize: Option<int>, density: real -> real)
    returns (r: Result<Matrix>, taper: seq<real>, x: seq<real>)
    ensures r == TaperedSlidingWindowSpec(T, windowsize, density)
    ensures r.Ok? ==> x == TaperAbscissa(windowsize.value) && taper == Taper(windowsize.value, density)
  {
    taper, x := [], [];
    if windowsize.None? {
      return Err(MissingKey("windowsize")), taper, x;
    }
    var k := windowsize.value;
    if k < 0 || k > T {
      return Err(BadWindow), taper, x;
    }
    x := TaperAbscissa(k);
    taper := Taper(k, density);
    var w := WindowWeights(T, taper);
    r := Ok(w);
  }

  /** Row s of the tapered weights is the taper shifted right by s. */
  lemma TaperedRows(T: nat, k: nat, density: real -> real)
    requires k <= T
    ensures TaperedSlidingWindowSpec(T, Some(k), density).Ok?
    ensures IsMatrix(TaperedSlidingWindowSpec(T, Some(k), density).value, T - k + 1, T)
    ensures forall s, c :: 0 <= s < T - k + 1 && 0 <= c < T ==>
              TaperedSlidingWindowSpec(T, Some(k), density).value[s][c] ==
                (if s <= c < s + k then density(TaperAbscissa(k)[c - s]) else 0.0)
  {
  }

  // ---------------------------------------------------------------------
  // Distance weights

  /** Distances between every pair of rows of the time x node data, i.e.
      between time points. */
  function PairDistances(X: Matrix, dist: (seq<real>, seq<real>) -> real): (D: Matrix)
    ensures IsMatrix(D, |X|, |X|)
    ensures forall n, t :: 0 <= n < |X| && 0 <= t < |X| ==> D[n][t] == dist(X[n], X[t])
  {
    seq(|X|, n requires 0 <= n < |X| => seq(|X|, t requires 0 <= t < |X| => dist(X[n], X[t])))
  }

  /** The off-diagonal entries of a square matrix, row by row. */
  function OffDiag(m: Matrix, rows: nat): (vals: seq<real>)
    requires rows <= |m| && IsMatrix(m, |m|, |m|)
  {
    if rows == 0 then []
    else
      var r := rows - 1;
      OffDiag(m, r) + m[r][..r] + m[r][r + 1..]
  }

  /** OffDiag lists exactly the entries m[r][c] with r != c. */
  lemma {:induction false} OffDiagMembers(m: Matrix, rows: nat)
    requires rows <= |m| && IsMatrix(m, |m|, |m|)
    ensures forall r, c :: 0 <= r < rows && 0 <= c < |m| && r != c ==> m[r][c] in OffDiag(m, rows)
    ensures forall v :: v in OffDiag(m, rows) ==>
              exists r, c :: 0 <= r < rows && 0 <= c < |m| && r != c && m[r][c] == v
  {
    if rows > 0 {
      var r := rows - 1;
      OffDiagMembers(m, r);
      var left, a, b := OffDiag(m, r), m[r][..r], m[r][r + 1..];
      assert OffDiag(m, rows) == left + a + b;
      forall r', c | 0 <= r' < rows && 0 <= c < |m| && r' != c
        ensures m[r'][c] in OffDiag(m, rows)
      {
        if r' == r {
          if c < r { assert a[c] == m[r][c]; } else { assert b[c - r - 1] == m[r][c]; }
        }
      }
      forall v | v in OffDiag(m, rows)
        ensures exists r', c :: 0 <= r' < rows && 0 <= c < |m| && r' != c && m[r'][c] == v
      {
        if v in a {
          var c :| 0 <= c < |a| && a[c] == v;
          assert m[r][c] == v;
        } else if v in b {
          var c :| 0 <= c < |b| && b[c] == v;
          assert m[r][c + r + 1] == v;
        }
      }
    }
  }

  function SeqMin(s: seq<real>): (m: real)
    requires |s| > 0
    ensures m in s && forall x :: x in s ==> m <= x
  {
    if |s| == 1 then s[0]
    else
      var rest := SeqMin(s[1..]);
      assert forall x :: x in s ==> x == s[0] || x in s[1..];
      if s[0] <= rest then s[0] else rest
  }

  function SeqMax(s: seq<real>): (m: real)
    requires |s| > 0
    ensures m in s && forall x :: x in s ==> x <= m
  {
    if |s| == 1 then s[0]
    else
      var rest := SeqMax(s[1..]);
      assert forall x :: x in s ==> x == s[0] || x in s[1..];
      if s[0] >= rest then s[0] else rest
  }

  predicate ZeroOffDiagonal(D: Matrix)
    requires IsMatrix(D, |D|, |D|)
  {
    exists r, c :: 0 <= r < |D| && 0 <= c < |D| && r != c && D[r][c] == 0.0
  }

  /** 1 / D off the diagonal; the diagonal (NaN in the source) holds 0 and
      is never read. */
  function Inverse(D: Matrix): (inv: Matrix)
    requires IsMatrix(D, |D|, |D|) && !ZeroOffDiagonal(D)
    ensures IsMatrix(inv, |D|, |D|)
  {
    seq(|D|, r requires 0 <= r < |D| =>
      seq(|D|, c requires 0 <= c < |D| => if r == c then 0.0 else 1.0 / D[r][c]))
  }

  /** Min-max scaling of the off-diagonal entries, with 1 on the diagonal. */
  function Scaled(inv: Matrix, lo: real, hi: real): (w: Matrix)
    requires IsMatrix(inv, |inv|, |inv|) && lo < hi
    ensures IsMatrix(w, |inv|, |inv|)
    ensures forall r, c :: 0 <= r < |inv| && 0 <= c < |inv| ==>
              w[r][c] == (if r == c then 1.0 else (inv[r][c] - lo) / (hi - lo))
  {
    seq(|inv|, r requires 0 <= r < |inv| =>
      seq(|inv|, c requires 0 <= c < |inv| =>
        if r == c then 1.0 else (inv[r][c] - lo) / (hi - lo)))
  }

  /** The smallest and largest off-diagonal inverse distance. */
  function Extremes(D: Matrix): (b: (real, real))
    requires IsMatrix(D, |D|, |D|) && |D| > 1 && !ZeroOffDiagonal(D)
    ensures forall r, c :: 0 <= r < |D| && 0 <= c < |D| && r != c ==>
              b.0 <= Inverse(D)[r][c] <= b.1
    ensures exists r, c :: 0 <= r < |D| && 0 <= c < |D| && r != c && Inverse(D)[r][c] == b.0
    ensures exists r, c :: 0 <= r < |D| && 0 <= c < |D| && r != c && Inverse(D)[r][c] == b.1
  {
    var inv := Inverse(D);
    var vals := OffDiag(inv, |D|);
    OffDiagMembers(inv, |D|);
    assert inv[0][1] in vals;
    (SeqMin(vals), SeqMax(vals))
  }

  /** weightfun_spatial_distance after the distances: invert, min-max scale
      over the off-diagonal entries, set the diagonal to 1. A zero distance
      (an infinite weight) or equal inverse distances (0 / 0) would give
      non-finite weights and are reported as NonFinite; no time points at
      all leave nanmin nothing to reduce. */
  function DistanceWeights(D: Matrix): (r: Result<Matrix>)
    requires IsMatrix(D, |D|, |D|)
  {
    var n := |D|;
    if n == 0 then Err(Empty)
    else if n == 1 then Ok([[1.0]])
    else if ZeroOffDiagonal(D) then Err(NonFinite)
    else
      var b := Extremes(D);
      if b.0 == b.1 then Err(NonFinite)
      else Ok(Scaled(Inverse(D), b.0, b.1))
  }

  lemma ScaleInUnit(v: real, lo: real, hi: real)
    requires lo <= v <= hi && lo < hi
    ensures 0.0 <= (v - lo) / (hi - lo) <= 1.0
  {
    var d := hi - lo;
    DivMonotone(0.0, v - lo, d);
    DivMonotone(v - lo, d, d);
    assert d / d == 1.0;
  }

  /** Past the degenerate cases, the weights are the scaled inverse distances. */
  lemma DistanceWeightsUnfold(D: Matrix)
    requires IsMatrix(D, |D|, |D|) && |D| > 1 && DistanceWeights(D).Ok?
    ensures !ZeroOffDiagonal(D) && Extremes(D).0 < Extremes(D).1
    ensures DistanceWeights(D).value == Scaled(Inverse(D), Extremes(D).0, Extremes(D).1)
  {
    assert Extremes(D).0 <= Inverse(D)[0][1] <= Extremes(D).1;
  }

  /** The distance weights are square with diagonal exactly 1, and every
      weight lies in [0, 1]. A single time point always gets weight 1. */
  lemma DistanceWeightsRange(D: Matrix)
    requires IsMatrix(D, |D|, |D|)
    ensures |D| == 1 ==> DistanceWeights(D) == Ok([[1.0]])
    ensures DistanceWeights(D).Ok? ==>
              var w := DistanceWeights(D).value;
              IsMatrix(w, |D|, |D|) &&
              (forall r :: 0 <= r < |D| ==> w[r][r] == 1.0) &&
              (forall r, c :: 0 <= r < |D| && 0 <= c < |D| ==> 0.0 <= w[r][c] <= 1.0)
  {
    var n := |D|;
    if n == 1 {
      assert DistanceWeights(D).value[0] == [1.0];
    } else if n > 1 && DistanceWeights(D).Ok? {
      DistanceWeightsUnfold(D);
      ScaledInUnit(Inverse(D), Extremes(D).0, Extremes(D).1);
    }
  }

  /** Min-max scaling maps values inside [lo, hi] into [0, 1]. */
  lemma ScaledInUnit(inv: Matrix, lo: real, hi: real)
    requires IsMatrix(inv, |inv|, |inv|) && lo < hi
    requires forall r, c :: 0 <= r < |inv| && 0 <= c < |inv| && r != c ==> lo <= inv[r][c] <= hi
    ensures forall r, c :: 0 <= r < |inv| && 0 <= c < |inv| ==> 0.0 <= Scaled(inv, lo, hi)[r][c] <= 1.0
  {
    var w := Scaled(inv, lo, hi);
    forall r, c | 0 <= r < |inv| && 0 <= c < |inv| ensures 0.0 <= w[r][c] <= 1.0 {
      if r != c {
        ScaleInUnit(inv[r][c], lo, hi);
      }
    }
  }

  /** For T > 1 the time points furthest apart get weight 0 and the
      closest get weight 1. */
  lemma DistanceWeightsExtremes(D: Matrix)
    requires IsMatrix(D, |D|, |D|) && |D| > 1 && DistanceWeights(D).Ok?
    ensures exists r, c :: 0 <= r < |D| && 0 <= c < |D| && r != c && DistanceWeights(D).value[r][c] == 0.0
    ensures exists r, c :: 0 <= r < |D| && 0 <= c < |D| && r != c && DistanceWeights(D).value[r][c] == 1.0
  {
    var n := |D|;
    DistanceWeightsUnfold(D);
    var lo, hi := Extremes(D).0, Extremes(D).1;
    var inv := Inverse(D);
    var w := DistanceWeights(D).value;
    var r0, c0 :| 0 <= r0 < n && 0 <= c0 < n && r0 != c0 && inv[r0][c0] == lo;
    var r1, c1 :| 0 <= r1 < n && 0 <= c1 < n && r1 != c1 && inv[r1][c1] == hi;
    ScaledEnds(lo, hi);
    assert w[r0][c0] == 0.0;
    assert w[r1][c1] == 1.0;
  }

  lemma ScaledEnds(lo: real, hi: real)
    requires lo < hi
    ensures (lo - lo) / (hi - lo) == 0.0 && (hi - lo) / (hi - lo) == 1.0
  {
  }

  /** For positive distances a larger distance never gets a larger weight. */
  lemma DistanceWeightsMonotone(D: Matrix, r1: nat, c1: nat, r2: nat, c2: nat)
    requires IsMatrix(D, |D|, |D|) && DistanceWeights(D).Ok?
    requires r1 < |D| && c1 < |D| && r2 < |D| && c2 < |D| && r1 != c1 && r2 != c2
    requires 0.0 < D[r1][c1] <= D[r2][c2]
    ensures DistanceWeights(D).value[r2][c2] <= DistanceWeights(D).value[r1][c1]
  {
    DistanceWeightsUnfold(D);
    var lo, hi := Extremes(D).0, Extremes(D).1;
    var inv := Inverse(D);
    InverseAntitone(D[r1][c1], D[r2][c2]);
    DivMonotone(inv[r2][c2] - lo, inv[r1][c1] - lo, hi - lo);
  }

  lemma InverseAntitone(a: real, b: real)
    requires 0.0 < a <= b
    ensures 1.0 / b <= 1.0 / a
  {
    assert 1.0 / a - 1.0 / b == (b - a) / (a * b);
    DivMonotone(0.0, b - a, a * b);
  }

  lemma DivMonotone(x: real, y: real, d: real)
    requires x <= y && d > 0.0
    ensures x / d <= y / d
  {
  }

  /** weightfun_spatial_distance on the (time x node) data. */
  function SpatialDistanceWeights(X: Matrix, dist: (seq<real>, seq<real>) -> real): Result<Matrix>
  {
    DistanceWeights(PairDistances(X, dist))
  }

  // ---------------------------------------------------------------------
  // Temporal derivative coupling

  /** First differences along time: d[t][n] = X[t + 1][n] - X[t][n]. */
  function Diff(X: Matrix): (d: Matrix)
    requires IsMatrix(X, |X|, Cols(X))
    ensures |X| > 0 ==> IsMatrix(d, |X| - 1, Cols(X))
    ensures |X| == 0 ==> d == []
  {
    if |X| == 0 then []
    else seq(|X| - 1, t requires 0 <= t < |X| - 1 =>
           seq(Cols(X), n requires 0 <= n < Cols(X) => X[t + 1][n] - X[t][n]))
  }

  function Column(d: Matrix, n: nat): seq<real>
    requires forall t :: 0 <= t < |d| ==> n < |d[t]|
  {
    seq(|d|, t requires 0 <= t < |d| => d[t][n])
  }

  /** The differences of a node's series add up to its total change, so the
      series is recovered from its first value and its differences. */
  lemma {:induction false} DiffTelescopes(X: Matrix, n: nat)
    requires IsMatrix(X, |X|, Cols(X)) && |X| > 0 && n < Cols(X)
    ensures Sum(Column(Diff(X), n)) == X[|X| - 1][n] - X[0][n]
    decreases |X|
  {
    if |X| > 1 {
      var Y := X[..|X| - 1];
      assert Cols(Y) == Cols(X);
      DiffTelescopes(Y, n);
      var cx, cy := Column(Diff(X), n), Column(Diff(Y), n);
      assert cx == cy + [X[|X| - 1][n] - X[|X| - 2][n]];
      SumAppend(cy, X[|X| - 1][n] - X[|X| - 2][n]);
    } else {
      assert Column(Diff(X), n) == [];
    }
  }

  /** coupling[i][j][t] = d[t][i] * d[t][j]. */
  function Coupling(d: Matrix, N: nat): (c: Graphlet)
    requires IsMatrix(d, |d|, N)
    ensures Shaped(c, N, N, |d|)
  {
    seq(N, i requires 0 <= i < N =>
      seq(N, j requires 0 <= j < N =>
        seq(|d|, t requires 0 <= t < |d| => d[t][i] * d[t][j])))
  }

  /** The coupling of i with j equals the coupling of j with i. */
  lemma CouplingSymmetric(d: Matrix, N: nat)
    requires IsMatrix(d, |d|, N)
    ensures forall i, j :: 0 <= i < N && 0 <= j < N ==> Coupling(d, N)[i][j] == Coupling(d, N)[j][i]
  {
    var c := Coupling(d, N);
    forall i, j | 0 <= i < N && 0 <= j < N ensures c[i][j] == c[j][i] {
      forall t | 0 <= t < |d| ensures c[i][j][t] == c[j][i][t] {
        assert d[t][i] * d[t][j] == d[t][j] * d[t][i];
      }
    }
  }

  /** Moving average of width k (the strided view averaged on its last axis). */
  function WindowMean(c: seq<real>, k: nat): (m: seq<real>)
    requires 1 <= k <= |c| + 1
    ensures |m| == |c| - k + 1
  {
    seq(|c| - k + 1, t requires 0 <= t < |c| - k + 1 => Sum(c[t..t + k]) / k as real)
  }

  /** A window of width 1 leaves the series unchanged. */
  lemma WindowMeanOne(c: seq<real>)
    ensures WindowMean(c, 1) == c
  {
    forall t | 0 <= t < |c| ensures WindowMean(c, 1)[t] == c[t] {
      assert c[t..t + 1] == [c[t]];
      assert Sum([c[t]]) == c[t] + Sum([]);
    }
  }

  /** A constant series keeps its value under the moving average. */
  lemma WindowMeanConstant(c: seq<real>, k: nat, v: real)
    requires 1 <= k <= |c| + 1
    requires forall t :: 0 <= t < |c| ==> c[t] == v
    ensures forall t :: 0 <= t < |c| - k + 1 ==> WindowMean(c, k)[t] == v
  {
    forall t | 0 <= t < |c| - k + 1 ensures WindowMean(c, k)[t] == v {
      SumConstant(c[t..t + k], v);
    }
  }

  /** Some node's differences have zero spread, so dividing by it gives
      NaN or infinity. */
  predicate FlatNode(d: Matrix, N: nat, sd: seq<real> -> real)
    requires IsMatrix(d, |d|, N)
  {
    exists n :: 0 <= n < N && sd(Column(d, n)) == 0.0
  }

  /** Each node's differences divided by their spread, sd being the
      standard deviation along time (np.std). */
  function Normalised(d: Matrix, N: nat, sd: seq<real> -> real): (z: Matrix)
    requires IsMatrix(d, |d|, N) && !FlatNode(d, N, sd)
    ensures IsMatrix(z, |d|, N)
  {
    seq(|d|, t requires 0 <= t < |d| =>
      seq(N, n requires 0 <= n < N => d[t][n] / sd(Column(d, n))))
  }

  /** temporal_derivative: differences, normalised per node, pairwise
      products, and their mean over a window of k samples; the depth is
      (T - 1) - k + 1. k must lie in 1 .. (T - 1) + 1 (k = 0 averages an
      empty window). A node of zero spread makes the result non-finite. */
  function TemporalDerivativeSpec(X: Matrix, windowsize: Option<int>, sd: seq<real> -> real): (r: Result<Graphlet>)
    requires IsMatrix(X, |X|, Cols(X))
    ensures r.Ok? ==>
              windowsize.Some? && 1 <= windowsize.value <= |Diff(X)| + 1 &&
              Shaped(r.value, Cols(X), Cols(X), |Diff(X)| - windowsize.value + 1)
  {
    match windowsize
    case None => Err(MissingKey("windowsize"))
    case Some(k) =>
      var d := Diff(X);
      var N := Cols(X);
      if k < 1 || k > |d| + 1 then Err(BadWindow)
      else if FlatNode(d, N, sd) then Err(NonFinite)
      else
        var c := Coupling(Normalised(d, N, sd), N);
        Ok(seq(N, i requires 0 <= i < N =>
             seq(N, j requires 0 <= j < N => WindowMean(c[i][j], k))))
  }

  /** Each output entry is the mean coupling of the normalised differences
      over a window, and the output is symmetric in the two nodes. */
  lemma TemporalDerivativeFacts(X: Matrix, k: nat, sd: seq<real> -> real)
    requires IsMatrix(X, |X|, Cols(X)) && 1 <= k <= |Diff(X)| + 1
    requires !FlatNode(Diff(X), Cols(X), sd)
    ensures TemporalDerivativeSpec(X, Some(k), sd).Ok?
    ensures forall i, j, t :: 0 <= i < Cols(X) && 0 <= j < Cols(X) && 0 <= t < |Diff(X)| - k + 1 ==>
              TemporalDerivativeSpec(X, Some(k), sd).value[i][j][t] ==
                Sum(Coupling(Normalised(Diff(X), Cols(X), sd), Cols(X))[i][j][t..t + k]) / k as real
    ensures forall i, j :: 0 <= i < Cols(X) && 0 <= j < Cols(X) ==>
              TemporalDerivativeSpec(X, Some(k), sd).value[i][j] ==
                TemporalDerivativeSpec(X, Some(k), sd).value[j][i]
  {
    CouplingSymmetric(Normalised(Diff(X), Cols(X), sd), Cols(X));
  }

  /** A node whose signal never changes has all-zero differences; when the
      spread of zeros is zero (as np.std's is) the result is non-finite. */
  lemma TemporalDerivativeStill(X: Matrix, k: nat, sd: seq<real> -> real, n: nat)
    requires IsMatrix(X, |X|, Cols(X)) && 1 <= k <= |Diff(X)| + 1 && n < Cols(X)
    requires forall t :: 0 <= t < |X| ==> X[t][n] == X[0][n]
    requires sd(seq(|Diff(X)|, _ => 0.0)) == 0.0
    ensures TemporalDerivativeSpec(X, Some(k), sd) == Err(NonFinite)
  {
    var d := Diff(X);
    forall t | 0 <= t < |d| ensures d[t][n] == 0.0 {
      assert X[t + 1][n] == X[0][n] && X[t][n] == X[0][n];
    }
    assert Column(d, n) == seq(|d|, _ => 0.0);
    assert FlatNode(d, Cols(X), sd);
  }

  // ---------------------------------------------------------------------
  // derive

  /** The method parameter: a name, or a literal weight matrix. */
  datatype MethodSpec = Named(name: string) | UserWeights(weights: Matrix)

  datatype Params = Params(
    choice: MethodSpec,
    dimord: Option<string>,        // 'time,node' when absent
    windowsize: Option<int>,
    density: real -> real,         // the taper distribution's pdf
    dist: (seq<real>, seq<real>) -> real,  // the distance function
    sd: seq<real> -> real)         // the standard deviation along time

  /** The weighted correlation returns an N x N matrix for N columns. */
  ghost predicate CorrShaped(corr: (Matrix, seq<real>) -> Matrix)
  {
    forall X: Matrix, w: seq<real> {:trigger corr(X, w)} :: IsMatrix(corr(X, w), Cols(X), Cols(X))
  }

  /** One weighted correlation matrix per weight row, stacked along time
      (R.transpose([1, 2, 0])). */
  function Correlate(X: Matrix, W: Matrix, corr: (Matrix, seq<real>) -> Matrix): (R: Graphlet)
    requires CorrShaped(corr)
    ensures Shaped(R, Cols(X), Cols(X), |W|)
    ensures forall i, j, w :: 0 <= i < Cols(X) && 0 <= j < Cols(X) && 0 <= w < |W| ==>
              R[i][j][w] == corr(X, W[w])[i][j]
  {
    var N := Cols(X);
    seq(N, i requires 0 <= i < N =>
      seq(N, j requires 0 <= j < N =>
        seq(|W|, w requires 0 <= w < |W| => corr(X, W[w])[i][j])))
  }

  /** The correlations stacked and transposed to node x node x window.
      With no weight row the stacked array is an empty one-dimensional
      array, which R.transpose([1, 2, 0]) rejects. */
  function Stacked(X: Matrix, W: Matrix, corr: (Matrix, seq<real>) -> Matrix): (r: Result<Graphlet>)
    requires CorrShaped(corr)
    ensures r.Err? <==> |W| == 0
    ensures r.Err? ==> r.error == Empty
    ensures r.Ok? ==> Shaped(r.value, Cols(X), Cols(X), |W|) && r.value == Correlate(X, W, corr)
  {
    if |W| == 0 then Err(Empty) else Ok(Correlate(X, W, corr))
  }

  function Negate(R: Graphlet): (S: Graphlet)
    ensures |S| == |R|
    ensures forall i :: 0 <= i < |R| ==> |S[i]| == |R[i]|
    ensures forall i, j :: 0 <= i < |R| && 0 <= j < |R[i]| ==> |S[i][j]| == |R[i][j]|
    ensures forall i, j, t :: 0 <= i < |R| && 0 <= j < |R[i]| && 0 <= t < |R[i][j]| ==>
              S[i][j][t] == -R[i][j][t]
  {
    seq(|R|, i requires 0 <= i < |R| =>
      seq(|R[i]|, j requires 0 <= j < |R[i]| =>
        seq(|R[i][j]|, t requires 0 <= t < |R[i][j]| => -R[i][j][t])))
  }

  /** The data in time x node order. */
  function Oriented(data: Matrix, dimord: Option<string>): (X: Matrix)
    requires IsMatrix(data, |data|, Cols(data))
    ensures IsMatrix(X, |X|, Cols(X))
  {
    if dimord == Some("node,time") then Transpose(data) else data
  }

  /** What derive computes (post-processing and the report left aside). */
  function DeriveSpec(data: Matrix, p: Params, corr: (Matrix, seq<real>) -> Matrix): Result<Graphlet>
    requires IsMatrix(data, |data|, Cols(data)) && CorrShaped(corr)
  {
    var X := Oriented(data, p.dimord);
    var T := |X|;
    match p.choice
    case Named(name) =>
      (match ParseMethod(name)
       case Err(e) => Err(e)
       case Ok(Jackknife) =>
         (match Stacked(X, JackknifeMatrix(T), corr)
          case Err(e) => Err(e)
          case Ok(R) => Ok(Negate(R)))
       case Ok(SlidingWindow) =>
         (match SlidingWindowSpec(T, p.windowsize)
          case Err(e) => Err(e)
          case Ok(W) => Stacked(X, W, corr))
       case Ok(TaperedSlidingWindow) =>
         (match TaperedSlidingWindowSpec(T, p.windowsize, p.density)
          case Err(e) => Err(e)
          case Ok(W) => Stacked(X, W, corr))
       case Ok(Distance) =>
         (match SpatialDistanceWeights(X, p.dist)
          case Err(e) => Err(e)
          case Ok(W) => Stacked(X, W, corr))
       case Ok(TemporalDerivative) => TemporalDerivativeSpec(X, p.windowsize, p.sd))
    case UserWeights(W) =>
      if !IsMatrix(W, |W|, |W|) then Err(NotSquare)
      else if |W| != T then Err(SizeMismatch)
      else Stacked(X, W, corr)
  }

  /** derive: orient the data, build the weights of the chosen method (or
      take the user's matrix), correlate, and flip the sign for jackknife. */
  method Derive(data: Matrix, p: Params, corr: (Matrix, seq<real>) -> Matrix) returns (r: Result<Graphlet>)
    requires IsMatrix(data, |data|, Cols(data)) && CorrShaped(corr)
    ensures r == DeriveSpec(data, p, corr)
  {
    var X := Oriented(data, p.dimord);
    var T := |X|;
    match p.choice {
      case Named(name) =>
        var m := ParseMethod(name);
        if m.Err? {
          return Err(m.error);
        }
        match m.value {
          case Jackknife =>
            var W := JackknifeWeights(T);
            var R := Stacked(X, W, corr);
            if R.Err? {
              return Err(R.error);
            }
            r := Ok(Negate(R.value));
          case SlidingWindow =>
            var W := SlidingWindowWeights(T, p.windowsize);
            if W.Err? {
              return Err(W.error);
            }
            r := Stacked(X, W.value, corr);
          case TaperedSlidingWindow =>
            var W, _, _ := TaperedSlidingWindowWeights(T, p.windowsize, p.density);
            if W.Err? {
              return Err(W.error);
            }
            r := Stacked(X, W.value, corr);
          case Distance =>
            var W := SpatialDistanceWeights(X, p.dist);
            if W.Err? {
              return Err(W.error);
            }
            r := Stacked(X, W.value, corr);
          case TemporalDerivative =>
            r := TemporalDerivativeSpec(X, p.windowsize, p.sd);
        }
      case UserWeights(W) =>
        if !IsMatrix(W, |W|, |W|) {
          return Err(NotSquare);
        }
        if |W| != T {
          return Err(SizeMismatch);
        }
        r := Stacked(X, W, corr);
    }
  }

  /** An unrecognised method string is rejected, and every alias of a
      method derives the same result as its documented name. */
  lemma DeriveDispatch(data: Matrix, p: Params, corr: (Matrix, seq<real>) -> Matrix, m: Method)
    requires IsMatrix(data, |data|, Cols(data)) && CorrShaped(corr)
    ensures p.choice.Named? && ParseMethod(p.choice.name).Err? ==> DeriveSpec(data, p, corr) == Err(UnknownMethod)
    ensures p.choice.Named? && ParseMethod(p.choice.name) == Ok(m) ==>
              DeriveSpec(data, p, corr) == DeriveSpec(data, p.(choice := Named(MethodName(m))), corr)
  {
    ParseMethodName(m);
  }

  /** A user weight matrix must be square with side T, and there must be
      at least one time point to stack a correlation for. */
  lemma DeriveUserWeights(data: Matrix, p: Params, corr: (Matrix, seq<real>) -> Matrix)
    requires IsMatrix(data, |data|, Cols(data)) && CorrShaped(corr) && p.choice.UserWeights?
    ensures !IsMatrix(p.choice.weights, |p.choice.weights|, |p.choice.weights|) ==>
              DeriveSpec(data, p, corr) == Err(NotSquare)
    ensures IsMatrix(p.choice.weights, |p.choice.weights|, |p.choice.weights|) &&
            |p.choice.weights| != |Oriented(data, p.dimord)| ==>
              DeriveSpec(data, p, corr) == Err(SizeMismatch)
    ensures IsMatrix(p.choice.weights, 0, 0) && |Oriented(data, p.dimord)| == 0 ==>
              DeriveSpec(data, p, corr) == Err(Empty)
    ensures DeriveSpec(data, p, corr).Ok? <==>
              IsMatrix(p.choice.weights, |p.choice.weights|, |p.choice.weights|) &&
              |p.choice.weights| == |Oriented(data, p.dimord)| > 0
    ensures DeriveSpec(data, p, corr).Ok? ==>
              DeriveSpec(data, p, corr).value == Correlate(Oriented(data, p.dimord), p.choice.weights, corr)
  {
  }

  /** Only jackknife is negated: its result is minus the weighted
      correlation under the leave-one-out weights (an error when there is
      no time point, as the leave-one-out matrix then has no row); the sliding-window,
      tapered and distance results are the plain weighted correlation
      under their weights, and the temporal derivative is returned as
      computed. */
  lemma DeriveJackknifeNegated(data: Matrix, p: Params, corr: (Matrix, seq<real>) -> Matrix)
    requires IsMatrix(data, |data|, Cols(data)) && CorrShaped(corr)
    ensures p.choice.Named? && ParseMethod(p.choice.name) == Ok(Jackknife) ==>
              var X := Oriented(data, p.dimord);
              DeriveSpec(data, p, corr) ==
                if |X| == 0 then Err(Empty) else Ok(Negate(Correlate(X, JackknifeMatrix(|X|), corr)))
    ensures p.choice.Named? && ParseMethod(p.choice.name) == Ok(SlidingWindow) &&
            SlidingWindowSpec(|Oriented(data, p.dimord)|, p.windowsize).Ok? ==>
              var X := Oriented(data, p.dimord);
              DeriveSpec(data, p, corr) == Ok(Correlate(X, SlidingWindowSpec(|X|, p.windowsize).value, corr))
    ensures p.choice.Named? && ParseMethod(p.choice.name) == Ok(TaperedSlidingWindow) &&
            TaperedSlidingWindowSpec(|Oriented(data, p.dimord)|, p.windowsize, p.density).Ok? ==>
              var X := Oriented(data, p.dimord);
              DeriveSpec(data, p, corr) ==
                Ok(Correlate(X, TaperedSlidingWindowSpec(|X|, p.windowsize, p.density).value, corr))
    ensures p.choice.Named? && ParseMethod(p.choice.name) == Ok(Distance) &&
            SpatialDistanceWeights(Oriented(data, p.dimord), p.dist).Ok? ==>
              var X := Oriented(data, p.dimord);
              DeriveSpec(data, p, corr) == Ok(Correlate(X, SpatialDistanceWeights(X, p.dist).value, corr))
    ensures p.choice.Named? && ParseMethod(p.choice.name) == Ok(TemporalDerivative) ==>
              DeriveSpec(data, p, corr) == TemporalDerivativeSpec(Oriented(data, p.dimord), p.windowsize, p.sd)
  {
    if p.choice.Named? && ParseMethod(p.choice.name).Ok? {
      match ParseMethod(p.choice.name).value
      case Jackknife =>
      case SlidingWindow =>
      case TaperedSlidingWindow =>
      case Distance =>
      case TemporalDerivative =>
    }
  }

  /** With dimord 'node,time' the data are transposed before anything else. */
  lemma DeriveOrientation(data: Matrix, p: Params, corr: (Matrix, seq<real>) -> Matrix)
    requires IsMatrix(data, |data|, Cols(data)) && CorrShaped(corr) && (|data| == 0 || Cols(data) > 0)
    ensures p.dimord == Some("node,time") ==>
              DeriveSpec(data, p, corr) ==
                DeriveSpec(Transpose(data), p.(dimord := Some("time,node")), corr)
  {
  }
}
