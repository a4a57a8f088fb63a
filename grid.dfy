/** Dense matrices and node x node x time arrays ("graphlets") as values,
    with the indexing facts shared by the derive, utils and network models. */
module Grid {
  import opened Wrappers
  import opened Seqs

  /** A 2-D array, rows first. */
  type Matrix = seq<seq<real>>

  /** A node x node x time array, indexed G[i][j][t]. */
  type Graphlet = seq<seq<seq<real>>>

  predicate IsMatrix(m: Matrix, rows: nat, cols: nat)
  {
    |m| == rows && forall r :: 0 <= r < rows ==> |m[r]| == cols
  }

  /** The column count of a rectangular matrix (0 for no rows). */
  function Cols(m: Matrix): nat
  {
    if |m| == 0 then 0 else |m[0]|
  }

  predicate Shaped(G: Graphlet, a: nat, b: nat, c: nat)
  {
    |G| == a &&
    forall i :: 0 <= i < a ==> |G[i]| == b && forall j :: 0 <= j < b ==> |G[i][j]| == c
  }

  /** np.zeros([a, b, c]). */
  function Zeros(a: nat, b: nat, c: nat): (G: Graphlet)
    ensures Shaped(G, a, b, c)
    ensures forall i, j, t :: 0 <= i < a && 0 <= j < b && 0 <= t < c ==> G[i][j][t] == 0.0
  {
    seq(a, _ => seq(b, _ => seq(c, _ => 0.0)))
  }

  /** The value at (i, j, t), or 0 outside the array. */
  function At(G: Graphlet, i: nat, j: nat, t: nat): real
  {
    if i < |G| && j < |G[i]| && t < |G[i][j]| then G[i][j][t] else 0.0
  }

  /** G with every diagonal entry G[i][i][t] replaced by v
      (numpy fill_diagonal on each time slice). */
  function WithDiagonal(G: Graphlet, v: real): (r: Graphlet)
    ensures |r| == |G|
    ensures forall i :: 0 <= i < |G| ==> |r[i]| == |G[i]|
    ensures forall i, j :: 0 <= i < |G| && 0 <= j < |G[i]| ==> |r[i][j]| == |G[i][j]|
    ensures forall i, j, t :: 0 <= i < |G| && 0 <= j < |G[i]| && 0 <= t < |G[i][j]| ==>
              r[i][j][t] == (if i == j then v else G[i][j][t])
  {
    seq(|G|, i requires 0 <= i < |G| =>
      seq(|G[i]|, j requires 0 <= j < |G[i]| =>
        seq(|G[i][j]|, t requires 0 <= t < |G[i][j]| =>
          if i == j then v else G[i][j][t])))
  }

  /** One scalar write G[i, j, t] = v. */
  datatype Cell = Cell(i: nat, j: nat, t: nat, v: real)

  predicate CellsFit(cells: seq<Cell>, a: nat, b: nat, c: nat)
  {
    forall k :: 0 <= k < |cells| ==> cells[k].i < a && cells[k].j < b && cells[k].t < c
  }

  function Put(G: Graphlet, a: nat, b: nat, c: nat, x: Cell): (r: Graphlet)
    requires Shaped(G, a, b, c) && x.i < a && x.j < b && x.t < c
    ensures Shaped(r, a, b, c)
  {
    G[x.i := G[x.i][x.j := G[x.i][x.j][x.t := x.v]]]
  }

  /** The writes applied one after another, as numpy fancy-index
      assignment does (a later write to the same entry wins). */
  function WriteAll(G: Graphlet, a: nat, b: nat, c: nat, cells: seq<Cell>): (r: Graphlet)
    requires Shaped(G, a, b, c) && CellsFit(cells, a, b, c)
    ensures Shaped(r, a, b, c)
  {
    if |cells| == 0 then G
    else Put(WriteAll(G, a, b, c, cells[..|cells| - 1]), a, b, c, cells[|cells| - 1])
  }

  /** The value of the last write to (i, j, t), if any. */
  function LastWrite(cells: seq<Cell>, i: nat, j: nat, t: nat): Option<real>
  {
    if |cells| == 0 then None
    else
      var x := cells[|cells| - 1];
      if x.i == i && x.j == j && x.t == t then Some(x.v)
      else LastWrite(cells[..|cells| - 1], i, j, t)
  }

  /** After the writes, an entry holds its last written value, or its old value. */
  lemma {:induction false} WriteAllAt(G: Graphlet, a: nat, b: nat, c: nat, cells: seq<Cell>, i: nat, j: nat, t: nat)
    requires Shaped(G, a, b, c) && CellsFit(cells, a, b, c)
    requires i < a && j < b && t < c
    ensures WriteAll(G, a, b, c, cells)[i][j][t] ==
              match LastWrite(cells, i, j, t)
              case Some(v) => v
              case None => G[i][j][t]
  {
    if |cells| > 0 {
      WriteAllAt(G, a, b, c, cells[..|cells| - 1], i, j, t);
    }
  }

  /** With no two writes to the same entry, the last write is the only one. */
  lemma {:induction false} LastWriteUnique(cells: seq<Cell>, k: nat)
    requires k < |cells|
    requires forall p, q :: 0 <= p < q < |cells| ==>
               (cells[p].i, cells[p].j, cells[p].t) != (cells[q].i, cells[q].j, cells[q].t)
    ensures LastWrite(cells, cells[k].i, cells[k].j, cells[k].t) == Some(cells[k].v)
  {
    if k < |cells| - 1 {
      LastWriteUnique(cells[..|cells| - 1], k);
    }
  }

  /** No write hits (i, j, t). */
  lemma {:induction false} LastWriteNone(cells: seq<Cell>, i: nat, j: nat, t: nat)
    requires forall k :: 0 <= k < |cells| ==> (cells[k].i, cells[k].j, cells[k].t) != (i, j, t)
    ensures LastWrite(cells, i, j, t) == None
  {
    if |cells| > 0 {
      LastWriteNone(cells[..|cells| - 1], i, j, t);
    }
  }

  /** Some write hits (i, j, t): the result is the value of one of them. */
  lemma {:induction false} LastWriteSome(cells: seq<Cell>, i: nat, j: nat, t: nat)
    ensures LastWrite(cells, i, j, t).Some? <==>
              exists k :: 0 <= k < |cells| && (cells[k].i, cells[k].j, cells[k].t) == (i, j, t)
    ensures LastWrite(cells, i, j, t).Some? ==>
              exists k :: 0 <= k < |cells| && (cells[k].i, cells[k].j, cells[k].t) == (i, j, t) &&
                          cells[k].v == LastWrite(cells, i, j, t).value
  {
    if |cells| > 0 {
      var init := cells[..|cells| - 1];
      LastWriteSome(init, i, j, t);
      if LastWrite(cells, i, j, t).Some? && LastWrite(init, i, j, t).Some? {
        var k :| 0 <= k < |init| && (init[k].i, init[k].j, init[k].t) == (i, j, t) &&
                 init[k].v == LastWrite(init, i, j, t).value;
        assert cells[k] == init[k];
      }
      if exists k :: 0 <= k < |cells| && (cells[k].i, cells[k].j, cells[k].t) == (i, j, t) {
        var k :| 0 <= k < |cells| && (cells[k].i, cells[k].j, cells[k].t) == (i, j, t);
        if k < |init| {
          assert init[k] == cells[k];
        }
      }
    }
  }

  /** The writes with row and column exchanged. */
  function Swapped(cells: seq<Cell>): (r: seq<Cell>)
    ensures |r| == |cells|
  {
    seq(|cells|, k requires 0 <= k < |cells| => Cell(cells[k].j, cells[k].i, cells[k].t, cells[k].v))
  }

  /** Exchanging row and column in every write exchanges them in the result. */
  lemma {:induction false} LastWriteSwapped(cells: seq<Cell>, i: nat, j: nat, t: nat)
    ensures LastWrite(Swapped(cells), i, j, t) == LastWrite(cells, j, i, t)
  {
    if |cells| > 0 {
      assert Swapped(cells)[..|cells| - 1] == Swapped(cells[..|cells| - 1]);
      LastWriteSwapped(cells[..|cells| - 1], i, j, t);
    }
  }

  /** Of two batches of writes, the later batch wins where it writes at all. */
  lemma {:induction false} LastWriteAppend(a: seq<Cell>, b: seq<Cell>, i: nat, j: nat, t: nat)
    ensures LastWrite(a + b, i, j, t) ==
              if LastWrite(b, i, j, t).Some? then LastWrite(b, i, j, t) else LastWrite(a, i, j, t)
  {
    if |b| > 0 {
      assert (a + b)[..|a + b| - 1] == a + b[..|b| - 1];
      LastWriteAppend(a, b[..|b| - 1], i, j, t);
    } else {
      assert a + b == a;
    }
  }

  /** Two graphlets of one shape that agree entrywise are equal. */
  lemma ShapedEqual(G: Graphlet, H: Graphlet, a: nat, b: nat, c: nat)
    requires Shaped(G, a, b, c) && Shaped(H, a, b, c)
    requires forall i, j, t :: 0 <= i < a && 0 <= j < b && 0 <= t < c ==> G[i][j][t] == H[i][j][t]
    ensures G == H
  {
    forall i | 0 <= i < a ensures G[i] == H[i] {
      forall j | 0 <= j < b ensures G[i][j] == H[i][j] {
        assert |G[i][j]| == |H[i][j]| == c;
      }
    }
  }

  // ---------------------------------------------------------------------
  // Index enumerations (the order in which numpy's `where` lists indices)

  /** (y, z) for y < b, z < c, in lexicographic order. */
  function Pairs(b: nat, c: nat): seq<(nat, nat)>
  {
    if b == 0 then [] else Pairs(b - 1, c) + seq(c, z requires 0 <= z < c => (b - 1, z as nat))
  }

  /** (x, y, z) for x < a, y < b, z < c, in lexicographic (row-major) order. */
  function Triples(a: nat, b: nat, c: nat): seq<(nat, nat, nat)>
  {
    if a == 0 then []
    else
      var p := Pairs(b, c);
      Triples(a - 1, b, c) + seq(|p|, k requires 0 <= k < |p| => (a - 1, p[k].0, p[k].1))
  }

  predicate Less2(p: (nat, nat), q: (nat, nat))
  {
    p.0 < q.0 || (p.0 == q.0 && p.1 < q.1)
  }

  predicate Less3(p: (nat, nat, nat), q: (nat, nat, nat))
  {
    p.0 < q.0 || (p.0 == q.0 && Less2((p.1, p.2), (q.1, q.2)))
  }

  lemma {:induction false} PairsFacts(b: nat, c: nat)
    ensures forall p :: p in Pairs(b, c) <==> p.0 < b && p.1 < c
    ensures SortedBy(Pairs(b, c), Less2)
  {
    if b > 0 {
      PairsFacts(b - 1, c);
      var left := Pairs(b - 1, c);
      var right := seq(c, z requires 0 <= z < c => (b - 1, z as nat));
      var s := left + right;
      forall p: (nat, nat) | p.0 < b && p.1 < c ensures p in s {
        if p.0 == b - 1 {
          assert right[p.1] == p;
        } else {
          assert p in left;
        }
      }
      forall p, q | 0 <= p < q < |s| ensures Less2(s[p], s[q]) {
        if q >= |left| && p < |left| {
          assert s[p] in left;
        }
      }
    }
  }

  lemma {:induction false} TriplesFacts(a: nat, b: nat, c: nat)
    ensures forall p :: p in Triples(a, b, c) <==> p.0 < a && p.1 < b && p.2 < c
    ensures SortedBy(Triples(a, b, c), Less3)
  {
    if a > 0 {
      TriplesFacts(a - 1, b, c);
      PairsFacts(b, c);
      var pr := Pairs(b, c);
      var left := Triples(a - 1, b, c);
      var right := seq(|pr|, k requires 0 <= k < |pr| => (a - 1, pr[k].0, pr[k].1));
      var s := left + right;
      assert s == Triples(a, b, c);
      forall p | p in s ensures p.0 < a && p.1 < b && p.2 < c {
        if p in right {
          var k :| 0 <= k < |right| && right[k] == p;
          assert pr[k] in pr;
        }
      }
      forall p: (nat, nat, nat) | p.0 < a && p.1 < b && p.2 < c ensures p in s {
        if p.0 == a - 1 {
          assert (p.1, p.2) in pr;
          var k :| 0 <= k < |pr| && pr[k] == (p.1, p.2);
          assert right[k] == p;
        } else {
          assert p in left;
        }
      }
      forall p, q | 0 <= p < q < |s| ensures Less3(s[p], s[q]) {
        if q >= |left| && p < |left| {
          assert s[p] in left;
        } else if p >= |left| {
          assert Less2(pr[p - |left|], pr[q - |left|]);
        }
      }
    }
  }

  /** Strictly increasing sequences have no repeated element. */
  lemma SortedDistinct3(s: seq<(nat, nat, nat)>)
    requires SortedBy(s, Less3)
    ensures forall p, q :: 0 <= p < q < |s| ==> s[p] != s[q]
  {
  }

  // ---------------------------------------------------------------------
  // Supra-adjacency node numbering

  /** Node i at time t as one node of the supra graph with N nodes per slice. */
  function SupraIndex(i: nat, t: nat, N: nat): nat
  {
    i + N * t
  }

  /** The supra index determines node and time: it is a bijection onto
      0 .. N*T-1 when i < N. */
  lemma SupraIndexInverse(i: nat, t: nat, N: nat)
    requires i < N
    ensures SupraIndex(i, t, N) / N == t && SupraIndex(i, t, N) % N == i
  {
    var s := SupraIndex(i, t, N);
    var q, r := s / N, s % N;
    assert N * q + r == N * t + i;
    if q > t {
      MulMonotone(N, q - t);
      assert false;
    } else if q < t {
      MulMonotone(N, t - q);
      assert false;
    }
  }

  lemma MulMonotone(n: nat, d: nat)
    requires d >= 1
    ensures n * d >= n
  {
  }

  lemma SupraIndexInjective(i1: nat, t1: nat, i2: nat, t2: nat, N: nat)
    requires i1 < N && i2 < N
    requires SupraIndex(i1, t1, N) == SupraIndex(i2, t2, N)
    ensures i1 == i2 && t1 == t2
  {
    SupraIndexInverse(i1, t1, N);
    SupraIndexInverse(i2, t2, N);
  }

  // ---------------------------------------------------------------------
  // Transposition of a 2-D array

  /** numpy transpose of a rectangular matrix with at least one column. */
  function Transpose(m: Matrix): (r: Matrix)
    requires IsMatrix(m, |m|, Cols(m))
    ensures IsMatrix(r, Cols(m), |m|)
    ensures forall i, j :: 0 <= i < Cols(m) && 0 <= j < |m| ==> r[i][j] == m[j][i]
  {
    seq(Cols(m), i requires 0 <= i < Cols(m) => seq(|m|, j requires 0 <= j < |m| => m[j][i]))
  }

  /** Transposing twice gives the matrix back. */
  lemma TransposeTwice(m: Matrix)
    requires IsMatrix(m, |m|, Cols(m)) && (|m| == 0 || Cols(m) > 0)
    ensures IsMatrix(Transpose(m), |Transpose(m)|, Cols(Transpose(m)))
    ensures Transpose(Transpose(m)) == m
  {
    var t := Transpose(m);
    if |m| > 0 {
      assert Cols(t) == |m|;
      var tt := Transpose(t);
      assert |tt| == |m|;
      forall r | 0 <= r < |m| ensures tt[r] == m[r] {
        assert |tt[r]| == |m[r]|;
      }
    }
  }
}
