/** Table-level helpers of teneto/utils/utils.py: the edge table to array
    conversion, undirected duplicate removal, the supra-adjacency edge list,
    community re-indexing, and the input classification checks. */
module Utils {
  import opened Wrappers
  import opened Seqs
  import opened Grid
  import opened Contacts

  // ---------------------------------------------------------------------
  // Edge tables

  /** One row of the edge table (columns i, j, t and, when weighted, weight). */
  datatype Edge = Edge(i: nat, j: nat, t: nat, w: real)

  /** The entry a row writes: 1 for a three-column table, else its weight. */
  function RowValue(e: Edge, weighted: bool): real
  {
    if weighted then e.w else 1.0
  }

  /** The writes of df_to_array: every row, then (undirected) every row with
      i and j swapped. */
  function TableCells(rows: seq<Edge>, weighted: bool, undirected: bool): (cells: seq<Cell>)
    ensures |cells| == (if undirected then 2 else 1) * |rows|
  {
    var fwd := seq(|rows|, k requires 0 <= k < |rows| =>
                 Cell(rows[k].i, rows[k].j, rows[k].t, RowValue(rows[k], weighted)));
    var back := seq(|rows|, k requires 0 <= k < |rows| =>
                  Cell(rows[k].j, rows[k].i, rows[k].t, RowValue(rows[k], weighted)));
    if undirected then fwd + back else fwd
  }

  /** df_to_array: an N x N x T array, zero except where rows write; a row
      outside the array is an indexing error. */
  function DfToArray(rows: seq<Edge>, weighted: bool, N: nat, T: nat, nt: NetType): (r: Result<Graphlet>)
    ensures r.Ok? ==> Shaped(r.value, N, N, T)
  {
    if |rows| == 0 then Ok(Zeros(N, N, T))
    else
      var cells := TableCells(rows, weighted, !nt.directed);
      if !CellsFit(cells, N, N, T) then Err(IndexOutOfRange)
      else Ok(WriteAll(Zeros(N, N, T), N, N, T, cells))
  }

  /** Every entry holds the last value written to it, or 0; an empty table
      gives all zeros; a table inside the array always converts. */
  lemma DfToArrayEntries(rows: seq<Edge>, weighted: bool, N: nat, T: nat, nt: NetType, i: nat, j: nat, t: nat)
    requires i < N && j < N && t < T
    ensures (forall k :: 0 <= k < |rows| ==> rows[k].i < N && rows[k].j < N && rows[k].t < T) ==>
              DfToArray(rows, weighted, N, T, nt).Ok?
    ensures DfToArray(rows, weighted, N, T, nt).Ok? ==>
              DfToArray(rows, weighted, N, T, nt).value[i][j][t] ==
                match LastWrite(TableCells(rows, weighted, !nt.directed), i, j, t)
                case Some(v) => v
                case None => 0.0
    ensures |rows| == 0 ==> DfToArray(rows, weighted, N, T, nt) == Ok(Zeros(N, N, T))
  {
    var cells := TableCells(rows, weighted, !nt.directed);
    if |rows| == 0 {
      LastWriteNone(cells, i, j, t);
    } else if CellsFit(cells, N, N, T) {
      WriteAllAt(Zeros(N, N, T), N, N, T, cells, i, j, t);
    }
  }

  /** A listed row is set (to 1, or to its weight), and also at (j, i, t)
      when undirected, when no other row writes the same entries; an entry
      no row names stays 0. */
  lemma DfToArrayRow(rows: seq<Edge>, weighted: bool, N: nat, T: nat, nt: NetType, k: nat)
    requires DfToArray(rows, weighted, N, T, nt).Ok? && k < |rows|
    requires var cells := TableCells(rows, weighted, !nt.directed);
             forall p, q :: 0 <= p < q < |cells| ==>
               (cells[p].i, cells[p].j, cells[p].t) != (cells[q].i, cells[q].j, cells[q].t)
    ensures rows[k].i < N && rows[k].j < N && rows[k].t < T
    ensures DfToArray(rows, weighted, N, T, nt).value[rows[k].i][rows[k].j][rows[k].t] == RowValue(rows[k], weighted)
    ensures !nt.directed ==>
              DfToArray(rows, weighted, N, T, nt).value[rows[k].j][rows[k].i][rows[k].t] == RowValue(rows[k], weighted)
  {
    var cells := TableCells(rows, weighted, !nt.directed);
    var e := rows[k];
    assert cells[k] == Cell(e.i, e.j, e.t, RowValue(e, weighted));
    LastWriteUnique(cells, k);
    DfToArrayEntries(rows, weighted, N, T, nt, e.i, e.j, e.t);
    if !nt.directed {
      assert cells[|rows| + k] == Cell(e.j, e.i, e.t, RowValue(e, weighted));
      LastWriteUnique(cells, |rows| + k);
      DfToArrayEntries(rows, weighted, N, T, nt, e.j, e.i, e.t);
    }
  }

  /** An entry that no row names (in either order, when undirected) is 0. */
  lemma DfToArrayUnlisted(rows: seq<Edge>, weighted: bool, N: nat, T: nat, nt: NetType, i: nat, j: nat, t: nat)
    requires DfToArray(rows, weighted, N, T, nt).Ok? && i < N && j < N && t < T
    requires forall k :: 0 <= k < |rows| ==>
               (rows[k].i, rows[k].j, rows[k].t) != (i, j, t) &&
               (nt.directed || (rows[k].j, rows[k].i, rows[k].t) != (i, j, t))
    ensures DfToArray(rows, weighted, N, T, nt).value[i][j][t] == 0.0
  {
    var cells := TableCells(rows, weighted, !nt.directed);
    forall k | 0 <= k < |cells| ensures (cells[k].i, cells[k].j, cells[k].t) != (i, j, t) {
      if k >= |rows| {
        assert cells[k] == Cell(rows[k - |rows|].j, rows[k - |rows|].i, rows[k - |rows|].t,
                                RowValue(rows[k - |rows|], weighted));
      }
    }
    LastWriteNone(cells, i, j, t);
    DfToArrayEntries(rows, weighted, N, T, nt, i, j, t);
  }

  /** A binary undirected table gives a symmetric array. */
  lemma DfToArrayBinarySymmetric(rows: seq<Edge>, N: nat, T: nat, nt: NetType)
    requires !nt.directed && DfToArray(rows, false, N, T, nt).Ok?
    ensures IsSymmetric(DfToArray(rows, false, N, T, nt).value, N, T)
  {
    var G := DfToArray(rows, false, N, T, nt).value;
    forall i, j, t | 0 <= i < N && 0 <= j < N && 0 <= t < T ensures G[i][j][t] == G[j][i][t] {
      BinarySymmetricAt(rows, N, T, nt, i, j, t);
    }
  }

  /** One position of DfToArrayBinarySymmetric: every written cell is 1,
      and each cell has its mirror among the written cells. */
  lemma BinarySymmetricAt(rows: seq<Edge>, N: nat, T: nat, nt: NetType, i: nat, j: nat, t: nat)
    requires !nt.directed && DfToArray(rows, false, N, T, nt).Ok?
    requires i < N && j < N && t < T
    ensures DfToArray(rows, false, N, T, nt).value[i][j][t] == DfToArray(rows, false, N, T, nt).value[j][i][t]
  {
    var cells := TableCells(rows, false, true);
    var m := |rows|;
    DfToArrayEntries(rows, false, N, T, nt, i, j, t);
    DfToArrayEntries(rows, false, N, T, nt, j, i, t);
    LastWriteSome(cells, i, j, t);
    LastWriteSome(cells, j, i, t);
    assert forall k :: 0 <= k < |cells| ==> cells[k].v == 1.0;
    if LastWrite(cells, i, j, t).Some? {
      var k :| 0 <= k < |cells| && (cells[k].i, cells[k].j, cells[k].t) == (i, j, t);
      var k' := if k < m then k + m else k - m;
      assert (cells[k'].i, cells[k'].j, cells[k'].t) == (j, i, t);
    }
    if LastWrite(cells, j, i, t).Some? {
      var k :| 0 <= k < |cells| && (cells[k].i, cells[k].j, cells[k].t) == (j, i, t);
      var k' := if k < m then k + m else k - m;
      assert (cells[k'].i, cells[k'].j, cells[k'].t) == (i, j, t);
    }
  }

  // ---------------------------------------------------------------------
  // df_drop_ij_duplicates

  /** The key rows are deduplicated on: the sorted pair {i, j} and t. */
  function UndirectedKey(e: Edge): (nat, nat, nat)
  {
    if e.i <= e.j then (e.i, e.j, e.t) else (e.j, e.i, e.t)
  }

  /** df_drop_ij_duplicates: drop every row whose unordered pair and time
      already occurred, keeping the first, in place. */
  method DropIJDuplicates(rows: seq<Edge>) returns (kept: seq<Edge>)
    ensures kept == DedupBy(rows, UndirectedKey)
  {
    kept := [];
    var seen: set<(nat, nat, nat)> := {};
    for k := 0 to |rows|
      invariant kept == DedupBy(rows[..k], UndirectedKey)
      invariant seen == KeySet(kept, UndirectedKey)
    {
      assert rows[..k + 1][..k] == rows[..k];
      var key := UndirectedKey(rows[k]);
      if key !in seen {
        kept := kept + [rows[k]];
        seen := seen + {key};
      }
    }
    assert rows[..|rows|] == rows;
  }

  /** After dropping, no two rows share an unordered pair and time, every
      pair and time still occurs, and each kept row is the first of its
      kind, in the original order. */
  lemma DropIJDuplicatesFacts(rows: seq<Edge>)
    ensures var kept := DedupBy(rows, UndirectedKey);
            (forall p, q :: 0 <= p < q < |kept| ==> UndirectedKey(kept[p]) != UndirectedKey(kept[q])) &&
            (forall e :: e in rows ==> exists x :: x in kept && UndirectedKey(x) == UndirectedKey(e)) &&
            (forall x :: x in kept ==> exists p :: FirstOfKey(rows, UndirectedKey, p) && rows[p] == x) &&
            SubseqOf(kept, rows)
  {
    DedupByFacts(rows, UndirectedKey);
    var kept := DedupBy(rows, UndirectedKey);
    forall e | e in rows ensures exists x :: x in kept && UndirectedKey(x) == UndirectedKey(e) {
      assert UndirectedKey(e) in KeySet(rows, UndirectedKey);
    }
  }

  // ---------------------------------------------------------------------
  // create_supraadjacency_matrix

  /** An edge of the supra-adjacency list. */
  datatype SupraEdge = SupraEdge(i: nat, j: nat, w: real)

  /** The number of interslice edges, len(np.arange(0, N*T - N)). */
  function InterCount(N: nat, T: nat): nat
  {
    if T == 0 then 0 else N * (T - 1)
  }

  /** create_supraadjacency_matrix on the sparse table of a network with N
      nodes and T time points: each edge moved to the supra-nodes of its
      time point (weight 1 when the table is unweighted), followed by an
      edge of weight intersliceweight from every supra-node to the same
      node at the next time point. */
  function SupraAdjacency(rows: seq<Edge>, weighted: bool, N: nat, T: nat, intersliceweight: real): (r: seq<SupraEdge>)
    ensures |r| == |rows| + InterCount(N, T)
  {
    var moved := seq(|rows|, k requires 0 <= k < |rows| =>
                   SupraEdge(SupraIndex(rows[k].i, rows[k].t, N), SupraIndex(rows[k].j, rows[k].t, N),
                             RowValue(rows[k], weighted)));
    var inter := seq(InterCount(N, T), k requires 0 <= k < InterCount(N, T) =>
                   SupraEdge(k, k + N, intersliceweight));
    moved + inter
  }

  /** Edges keep their identity: an edge between nodes of one time point
      becomes an edge between those nodes' supra-nodes, and distinct
      (node, time) pairs never share a supra-node. */
  lemma SupraAdjacencyEdges(rows: seq<Edge>, weighted: bool, N: nat, T: nat, iw: real, k: nat)
    requires k < |rows| && rows[k].i < N && rows[k].j < N
    ensures var e := SupraAdjacency(rows, weighted, N, T, iw)[k];
            e.i / N == rows[k].t && e.i % N == rows[k].i &&
            e.j / N == rows[k].t && e.j % N == rows[k].j &&
            e.w == (if weighted then rows[k].w else 1.0)
  {
    SupraIndexInverse(rows[k].i, rows[k].t, N);
    SupraIndexInverse(rows[k].j, rows[k].t, N);
  }

  /** Interslice edge k joins node n at time t to node n at time t + 1,
      for every node n and every t < T - 1. */
  lemma SupraAdjacencyInterslice(rows: seq<Edge>, weighted: bool, N: nat, T: nat, iw: real, n: nat, t: nat)
    requires n < N && t + 1 < T
    ensures var k := SupraIndex(n, t, N);
            k < InterCount(N, T) &&
            SupraAdjacency(rows, weighted, N, T, iw)[|rows| + k] ==
              SupraEdge(SupraIndex(n, t, N), SupraIndex(n, t + 1, N), iw)
  {
    MulMonotone(N, T - 1 - t);
    assert N * (T - 1) == N * t + N * (T - 1 - t);
  }

  // ---------------------------------------------------------------------
  // clean_community_indexes

  ghost predicate StrictlyIncreasing(u: seq<int>)
  {
    forall p, q :: 0 <= p < q < |u| ==> u[p] < u[q]
  }

  /** x placed into a strictly increasing sequence, unless already there. */
  function Insert(u: seq<int>, x: int): (r: seq<int>)
    requires StrictlyIncreasing(u)
    ensures StrictlyIncreasing(r)
    ensures forall y :: y in r <==> y in u || y == x
  {
    if |u| == 0 then [x]
    else if x < u[0] then [x] + u
    else if x == u[0] then u
    else
      var rest := Insert(u[1..], x);
      assert forall y :: y in u <==> y == u[0] || y in u[1..];
      HeadBelowTail(u);
      PrependIncreasing(u[0], rest);
      [u[0]] + rest
  }

  lemma HeadBelowTail(u: seq<int>)
    requires StrictlyIncreasing(u) && |u| > 0
    ensures forall y :: y in u[1..] ==> u[0] < y
  {
    forall y | y in u[1..] ensures u[0] < y {
      var m :| 0 <= m < |u| - 1 && u[1..][m] == y;
      assert u[m + 1] == y;
    }
  }

  lemma PrependIncreasing(h: int, rest: seq<int>)
    requires StrictlyIncreasing(rest)
    requires forall y :: y in rest ==> h < y
    ensures StrictlyIncreasing([h] + rest)
  {
    var r := [h] + rest;
    forall p, q | 0 <= p < q < |r| ensures r[p] < r[q] {
      assert r[q] == rest[q - 1] && rest[q - 1] in rest;
      if p > 0 {
        assert r[p] == rest[p - 1];
      }
    }
  }

  /** np.unique: the distinct values, in increasing order. */
  function Unique(s: seq<int>): (u: seq<int>)
    ensures StrictlyIncreasing(u)
    ensures forall y :: y in u <==> y in s
  {
    if |s| == 0 then []
    else
      var init := s[..|s| - 1];
      assert s == init + [s[|s| - 1]];
      Insert(Unique(init), s[|s| - 1])
  }

  /** The result of clean_community_indexes for ids: position p holds the
      index of ids[p] among the distinct ids in increasing order. */
  ghost predicate Reindexed(ids: seq<int>, r: seq<nat>)
  {
    |r| == |ids| &&
    forall p :: 0 <= p < |ids| ==> r[p] < |Unique(ids)| && Unique(ids)[r[p]] == ids[p]
  }

  /** clean_community_indexes on a flat list of community ids: for the
      i-th distinct id in increasing order, every position holding it
      gets i. */
  method CleanCommunityIndexes(ids: seq<int>) returns (r: seq<nat>)
    ensures Reindexed(ids, r)
  {
    var u := Unique(ids);
    var a := new nat[|ids|](_ => 0);
    for k := 0 to |u|
      invariant forall p :: 0 <= p < |ids| && ids[p] in u[..k] ==> a[p] < |u| && u[a[p]] == ids[p]
    {
      assert u[..k + 1] == u[..k] + [u[k]];
      forall p | 0 <= p < |ids| && ids[p] == u[k] {
        a[p] := k;
      }
    }
    assert u[..|u|] == u;
    r := a[..];
  }

  /** ndarray.flatten: the rows of an id array, one after the other. */
  function Flatten(m: seq<seq<int>>): seq<int>
  {
    if |m| == 0 then [] else Flatten(m[..|m| - 1]) + m[|m| - 1]
  }

  /** Row p of an h-row, w-column array starts at p * w and ends by h * w. */
  lemma RowOffset(p: nat, q: nat, h: nat, w: nat)
    requires p < h && q < w
    ensures p * w + q < (p + 1) * w <= h * w
  {
    assert h * w == (p + 1) * w + (h - (p + 1)) * w;
  }

  /** A rectangular array of h rows of w flattens to h * w entries. */
  lemma {:induction false} FlattenLength(m: seq<seq<int>>, w: nat)
    requires forall p :: 0 <= p < |m| ==> |m[p]| == w
    ensures |Flatten(m)| == |m| * w
  {
    if |m| > 0 {
      var h := |m| - 1;
      FlattenLength(m[..h], w);
      assert |m| * w == h * w + w;
    }
  }

  /** Entry (p, q) of a rectangular array is entry p * w + q of its
      flattening. */
  lemma {:induction false} FlattenAt(m: seq<seq<int>>, w: nat, p: nat, q: nat)
    requires forall k :: 0 <= k < |m| ==> |m[k]| == w
    requires p < |m| && q < w
    ensures |Flatten(m)| == |m| * w
    ensures p * w + q < |Flatten(m)| && Flatten(m)[p * w + q] == m[p][q]
  {
    var h := |m| - 1;
    var init := m[..h];
    FlattenLength(init, w);
    FlattenLength(m, w);
    assert Flatten(m) == Flatten(init) + m[h];
    RowOffset(p, q, |m|, w);
    if p < h {
      FlattenAt(init, w, p, q);
      assert init[p] == m[p];
    } else {
      assert p * w + q == |Flatten(init)| + q;
    }
  }

  /** The flattening holds exactly the array's entries. */
  lemma {:induction false} FlattenMembers(m: seq<seq<int>>, w: nat)
    requires forall p :: 0 <= p < |m| ==> |m[p]| == w
    ensures forall y :: y in Flatten(m) <==> exists p, q :: 0 <= p < |m| && 0 <= q < w && m[p][q] == y
  {
    if |m| > 0 {
      var h := |m| - 1;
      var init := m[..h];
      FlattenMembers(init, w);
      assert Flatten(m) == Flatten(init) + m[h];
      forall y | y in Flatten(m) ensures exists p, q :: 0 <= p < |m| && 0 <= q < w && m[p][q] == y {
        if y in Flatten(init) {
          var p, q :| 0 <= p < |init| && 0 <= q < w && init[p][q] == y;
          assert m[p][q] == y;
        } else {
          assert y in m[h];
          var q :| 0 <= q < w && m[h][q] == y;
        }
      }
      forall y | (exists p, q :: 0 <= p < |m| && 0 <= q < w && m[p][q] == y) ensures y in Flatten(m) {
        var p, q :| 0 <= p < |m| && 0 <= q < w && m[p][q] == y;
        if p < h {
          assert init[p][q] == y;
        } else {
          assert m[h][q] in m[h];
        }
      }
    }
  }

  /** Entry (p, q) of the flat sequence f read as h rows of w. */
  function ReshapedAt(f: seq<nat>, h: nat, w: nat, p: nat, q: nat): nat
    requires |f| == h * w && p < h && q < w
  {
    RowOffset(p, q, h, w);
    f[p * w + q]
  }

  /** clean_community_indexes on a two-dimensional id array (node x time,
      say): flattened row by row, re-indexed, and reshaped. Every entry
      becomes the rank of its id among the array's distinct ids, and the
      shape is kept. */
  method CleanCommunityGrid(ids: seq<seq<int>>, w: nat) returns (r: seq<seq<nat>>)
    requires forall p :: 0 <= p < |ids| ==> |ids[p]| == w
    ensures |r| == |ids| && forall p :: 0 <= p < |r| ==> |r[p]| == w
    ensures forall y :: y in Unique(Flatten(ids)) <==> exists p, q :: 0 <= p < |ids| && 0 <= q < w && ids[p][q] == y
    ensures forall p, q :: 0 <= p < |ids| && 0 <= q < w ==>
              r[p][q] < |Unique(Flatten(ids))| && Unique(Flatten(ids))[r[p][q]] == ids[p][q]
  {
    var flat := Flatten(ids);
    FlattenLength(ids, w);
    FlattenMembers(ids, w);
    var f := CleanCommunityIndexes(flat);
    var h := |ids|;
    r := seq(h, p requires 0 <= p < h => seq(w, q requires 0 <= q < w => ReshapedAt(f, h, w, p, q)));
    forall p, q | 0 <= p < h && 0 <= q < w
      ensures r[p][q] < |Unique(flat)| && Unique(flat)[r[p][q]] == ids[p][q]
    {
      FlattenAt(ids, w, p, q);
      var k := p * w + q;
      assert r[p][q] == f[k];
      assert flat[k] == ids[p][q];
    }
  }

  /** The re-indexing of a flat sequence keeps its length, uses exactly
      0 .. m - 1 where m is the number of distinct ids, maps equal ids to equal outputs and
      different ids to different ones, and keeps their order. */
  lemma ReindexedFacts(ids: seq<int>, r: seq<nat>)
    requires Reindexed(ids, r)
    ensures |r| == |ids|
    ensures forall x, y :: 0 <= x < |Unique(ids)| && 0 <= y < |Unique(ids)| && x != y ==>
              Unique(ids)[x] != Unique(ids)[y]
    ensures forall y :: y in Unique(ids) <==> y in ids
    ensures forall p :: 0 <= p < |r| ==> r[p] < |Unique(ids)|
    ensures forall k :: 0 <= k < |Unique(ids)| ==> k in r
    ensures forall p, q :: 0 <= p < |r| && 0 <= q < |r| ==> (r[p] == r[q] <==> ids[p] == ids[q])
    ensures forall p, q :: 0 <= p < |r| && 0 <= q < |r| ==> (r[p] < r[q] <==> ids[p] < ids[q])
  {
    var u := Unique(ids);
    forall x, y | 0 <= x < |u| && 0 <= y < |u| && x != y ensures u[x] != u[y] {
      if x < y { assert u[x] < u[y]; } else { assert u[y] < u[x]; }
    }
    forall k | 0 <= k < |u| ensures k in r {
      assert u[k] in ids;
      var p :| 0 <= p < |ids| && ids[p] == u[k];
      assert u[r[p]] == u[k];
      assert r[p] in r;
    }
    forall p, q | 0 <= p < |r| && 0 <= q < |r| ensures r[p] < r[q] <==> ids[p] < ids[q] {
      if r[q] <= r[p] {
        if r[q] < r[p] { assert u[r[q]] < u[r[p]]; }
      }
      if r[p] < r[q] { assert u[r[p]] < u[r[q]]; }
    }
  }

  // ---------------------------------------------------------------------
  // Input classification

  /** A value stored in a dictionary: a string, or anything else. */
  datatype DictValue = Str(s: string) | NonString

  /** The Python values the checks distinguish. */
  datatype PyInput =
    | NdArray(shape: seq<nat>)
    | Dict(entries: map<string, DictValue>)
    | DataFrame(columns: set<string>)
    | PyList(lengths: seq<nat>)          // a list; the lengths of its members
    | PyObject(hasNetwork: bool)          // any other object

  /** checkInput's verdicts: graphlet, contact, connectivity matrix,
      TemporalNetwork, unknown. */
  datatype InputKind = GraphletIn | ContactIn | MatrixIn | NetworkIn | UnknownIn

  predicate HasStr(d: map<string, DictValue>, key: string, ok: set<string>)
  {
    key in d && d[key].Str? && d[key].s in ok
  }

  /** checkInput. A 0- or 1-dimensional array fails when its second axis
      is read; any object with a `network` attribute (a data frame with a
      column of that name included) counts as a TemporalNetwork. */
  function CheckInput(x: PyInput, raiseIfU: bool, conMat: bool): (r: Result<InputKind>)
  {
    var kind :=
      match x
      case NdArray(shape) =>
        if |shape| == 3 && shape[0] == shape[1] then Ok(GraphletIn)
        else if |shape| < 2 then Err(IndexOutOfRange)
        else if shape[0] == shape[1] && conMat then Ok(MatrixIn)
        else Ok(UnknownIn)
      case Dict(d) =>
        if "contacts" in d && HasStr(d, "nettype", {"bd", "bu", "wd", "wu"}) &&
           HasStr(d, "dimord", {"node,node,time"}) && HasStr(d, "timetype", {"discrete"})
        then Ok(ContactIn) else Ok(UnknownIn)
      case DataFrame(cols) => if "network" in cols then Ok(NetworkIn) else Ok(UnknownIn)
      case PyList(_) => Ok(UnknownIn)
      case PyObject(has) => if has then Ok(NetworkIn) else Ok(UnknownIn);
    if kind == Ok(UnknownIn) && raiseIfU then Err(BadValue("netIn")) else kind
  }

  /** A graphlet is exactly a 3-D array square in its node axes; a contact
      dictionary needs the four keys with valid values; with raising on,
      the verdict is never "unknown". */
  lemma CheckInputFacts(x: PyInput, raiseIfU: bool, conMat: bool)
    ensures CheckInput(x, raiseIfU, conMat) == Ok(GraphletIn) <==>
              x.NdArray? && |x.shape| == 3 && x.shape[0] == x.shape[1]
    ensures x.Dict? ==>
              (CheckInput(x, raiseIfU, conMat) == Ok(ContactIn) <==>
                 "contacts" in x.entries && HasStr(x.entries, "nettype", {"bd", "bu", "wd", "wu"}) &&
                 HasStr(x.entries, "dimord", {"node,node,time"}) && HasStr(x.entries, "timetype", {"discrete"}))
    ensures CheckInput(x, raiseIfU, conMat) == Ok(MatrixIn) ==> conMat && x.NdArray? && x.shape[0] == x.shape[1]
    ensures raiseIfU ==> CheckInput(x, raiseIfU, conMat) != Ok(UnknownIn)
  {
  }

  /** The four ways a TemporalNetwork can be given its data. */
  datatype Source = EdgelistSource | ArraySource | DictSource | DfSource

  function ParseSource(datatype_: string): Option<Source>
  {
    if datatype_ == "edgelist" then Some(EdgelistSource)
    else if datatype_ == "array" then Some(ArraySource)
    else if datatype_ == "dict" then Some(DictSource)
    else if datatype_ == "df" then Some(DfSource)
    else None
  }

  /** check_TemporalNetwork_input as written: the data-frame test
      `('i' and 'j' and 't') not in df` evaluates the conjunction of the
      three strings first, which is 't', so only the t column is checked. */
  function CheckTemporalNetworkInputAsWritten(x: PyInput, datatype_: string): (r: Outcome)
  {
    match ParseSource(datatype_)
    case None => Fail(BadValue("datatype"))
    case Some(EdgelistSource) => CheckEdgelist(x)
    case Some(ArraySource) => CheckArray(x)
    case Some(DictSource) => CheckDict(x)
    case Some(DfSource) =>
      if !x.DataFrame? then Fail(BadValue("df"))
      else if "t" !in x.columns then Fail(MissingKey("t"))
      else Pass
  }

  /** check_TemporalNetwork_input with each of the i, j and t columns required. */
  function CheckTemporalNetworkInput(x: PyInput, datatype_: string): (r: Outcome)
  {
    match ParseSource(datatype_)
    case None => Fail(BadValue("datatype"))
    case Some(EdgelistSource) => CheckEdgelist(x)
    case Some(ArraySource) => CheckArray(x)
    case Some(DictSource) => CheckDict(x)
    case Some(DfSource) =>
      if !x.DataFrame? then Fail(BadValue("df"))
      else if "i" !in x.columns then Fail(MissingKey("i"))
      else if "j" !in x.columns then Fail(MissingKey("j"))
      else if "t" !in x.columns then Fail(MissingKey("t"))
      else Pass
  }

  /** An edge list is a list whose members all have length 3 or all length 4. */
  function CheckEdgelist(x: PyInput): Outcome
  {
    if !x.PyList? then Fail(BadValue("edgelist"))
    else if (forall k :: 0 <= k < |x.lengths| ==> x.lengths[k] == 3) ||
            (forall k :: 0 <= k < |x.lengths| ==> x.lengths[k] == 4) then Pass
    else Fail(BadValue("edgelist"))
  }

  /** An array input has 2 or 3 dimensions. */
  function CheckArray(x: PyInput): Outcome
  {
    if !x.NdArray? then Fail(BadValue("array"))
    else if |x.shape| == 2 || |x.shape| == 3 then Pass
    else Fail(BadValue("array"))
  }

  /** A dictionary input has a 'contacts' key. */
  function CheckDict(x: PyInput): Outcome
  {
    if !x.Dict? then Fail(BadValue("dict"))
    else if "contacts" in x.entries then Pass
    else Fail(MissingKey("contacts"))
  }

  /** The corrected check accepts a data frame exactly when it has all
      three columns, and agrees with the source on every other input. */
  lemma CheckTemporalNetworkInputFacts(x: PyInput, datatype_: string)
    ensures datatype_ == "df" && x.DataFrame? ==>
              (CheckTemporalNetworkInput(x, datatype_) == Pass <==> {"i", "j", "t"} <= x.columns)
    ensures datatype_ != "df" ==> CheckTemporalNetworkInput(x, datatype_) == CheckTemporalNetworkInputAsWritten(x, datatype_)
    ensures datatype_ == "edgelist" ==>
              (CheckTemporalNetworkInput(x, datatype_) == Pass <==>
                 x.PyList? && ((forall k :: 0 <= k < |x.lengths| ==> x.lengths[k] == 3) ||
                               (forall k :: 0 <= k < |x.lengths| ==> x.lengths[k] == 4)))
    ensures datatype_ == "array" ==>
              (CheckTemporalNetworkInput(x, datatype_) == Pass <==> x.NdArray? && 2 <= |x.shape| <= 3)
    ensures ParseSource(datatype_).None? ==> CheckTemporalNetworkInput(x, datatype_).Fail?
  {
  }

  /** A data frame with only a t column passes the check as written but
      has no i and j columns to build a network from. */
  lemma CheckDfColumnsExample()
    ensures CheckTemporalNetworkInputAsWritten(DataFrame({"t"}), "df") == Pass
    ensures CheckTemporalNetworkInput(DataFrame({"t"}), "df") == Fail(MissingKey("i"))
  {
  }

  /** check_distance_funciton_input: 'default' becomes 'hamming' for a
      binary network and 'euclidean' for a weighted one; reading the first
      letter of an empty nettype string raises. */
  function CheckDistanceFunctionInput(name: string, nettype: string): (r: Result<string>)
  {
    if name == "default" && |nettype| == 0 then Err(IndexOutOfRange)
    else if name == "default" && nettype[0] == 'b' then Ok("hamming")
    else if name == "default" && nettype[0] == 'w' then Ok("euclidean")
    else Ok(name)
  }

  /** Only 'default' is replaced, the choice follows the weighting of the
      network, an empty nettype string is an error only for 'default', and
      applying the check again changes nothing. */
  lemma CheckDistanceFunctionInputFacts(name: string, nt: NetType)
    ensures name != "default" ==> CheckDistanceFunctionInput(name, NetTypeName(nt)) == Ok(name)
    ensures name == "default" ==>
              CheckDistanceFunctionInput(name, NetTypeName(nt)) == Ok(if nt.weighted then "euclidean" else "hamming")
    ensures CheckDistanceFunctionInput(name, "") == (if name == "default" then Err(IndexOutOfRange) else Ok(name))
    ensures CheckDistanceFunctionInput(CheckDistanceFunctionInput(name, NetTypeName(nt)).value, NetTypeName(nt)) ==
              CheckDistanceFunctionInput(name, NetTypeName(nt))
  {
  }
}
