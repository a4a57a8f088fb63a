/** The TemporalNetwork container of teneto/classes/network.py: an edge
    table (i, j, t[, weight]) or, for dense arrays, the array itself, with
    the node count N, the time count T, the shape (N, T) and the nettype. */
module Network {
  import opened Wrappers
  import opened Seqs
  import opened Grid
  import opened Contacts
  import opened Utils

  function Max(a: int, b: int): (m: int)
    ensures m >= a && m >= b && (m == a || m == b)
  {
    if a >= b then a else b
  }

  // ---------------------------------------------------------------------
  // Shape of an edge table

  /** max over the rows of max(i, j), plus one; 0 for no rows. */
  function NodeBound(rows: seq<Edge>): (n: nat)
    ensures forall k :: 0 <= k < |rows| ==> rows[k].i < n && rows[k].j < n
    ensures |rows| > 0 ==> exists k :: 0 <= k < |rows| && (rows[k].i + 1 == n || rows[k].j + 1 == n)
  {
    if |rows| == 0 then 0
    else
      var init := rows[..|rows| - 1];
      var e := rows[|rows| - 1];
      var m := NodeBound(init);
      if |init| > 0 && m > Max(e.i, e.j) + 1 then
        var k :| 0 <= k < |init| && (init[k].i + 1 == m || init[k].j + 1 == m);
        assert rows[k] == init[k];
        m
      else Max(e.i, e.j) + 1
  }

  /** max over the rows of t, plus one; 0 for no rows. */
  function TimeBound(rows: seq<Edge>): (n: nat)
    ensures forall k :: 0 <= k < |rows| ==> rows[k].t < n
    ensures |rows| > 0 ==> exists k :: 0 <= k < |rows| && rows[k].t + 1 == n
  {
    if |rows| == 0 then 0
    else
      var init := rows[..|rows| - 1];
      var e := rows[|rows| - 1];
      var m := TimeBound(init);
      if |init| > 0 && m > e.t + 1 then
        var k :| 0 <= k < |init| && init[k].t + 1 == m;
        assert rows[k] == init[k];
        m
      else e.t + 1
  }

  /** Every row lies inside an n-node, T-point network. */
  predicate Covers(rows: seq<Edge>, n: int, T: int)
  {
    forall k :: 0 <= k < |rows| ==> rows[k].i < n && rows[k].j < n && rows[k].t < T
  }

  /** Rows taken from a table that covers the shape still do. */
  lemma CoversMembers(sub: seq<Edge>, rows: seq<Edge>, n: int, T: int)
    requires Covers(rows, n, T)
    requires forall x :: x in sub ==> x in rows
    ensures Covers(sub, n, T)
  {
    forall k | 0 <= k < |sub| ensures sub[k].i < n && sub[k].j < n && sub[k].t < T {
      assert sub[k] in rows;
    }
  }

  /** The (N, T) _calc_netshape settles on for a non-empty table when n
      and t are already set: large enough for every row, never smaller
      than n and t. */
  function GrownShape(rows: seq<Edge>, n: int, t: int): (s: (nat, nat))
    ensures Covers(rows, s.0, s.1) && s.0 >= n && s.1 >= t
  {
    (Max(n, NodeBound(rows)) as nat, Max(t, TimeBound(rows)) as nat)
  }

  /** A shape that already holds every row of a non-empty table is what
      _calc_netshape keeps. */
  lemma GrownShapeCovered(rows: seq<Edge>, n: nat, T: nat)
    requires |rows| > 0 && Covers(rows, n, T)
    ensures GrownShape(rows, n, T) == (n, T)
  {
    var k :| 0 <= k < |rows| && (rows[k].i + 1 == NodeBound(rows) || rows[k].j + 1 == NodeBound(rows));
    var k2 :| 0 <= k2 < |rows| && rows[k2].t + 1 == TimeBound(rows);
  }

  // ---------------------------------------------------------------------
  // _set_nettype: weighted from the weight column, undirected when
  // mirroring every row changes nothing

  /** The nettype _set_nettype detects for a table with the given shape. */
  function DetectNettype(rows: seq<Edge>, weighted: bool, n: nat, T: nat): (r: Result<NetType>)
    ensures r.Ok? ==> r.value.weighted == weighted
  {
    var mirrored := DfToArray(rows, weighted, n, T, NetType(weighted, false));
    var plain := DfToArray(rows, weighted, n, T, NetType(weighted, true));
    if mirrored.Err? || plain.Err? then Err(IndexOutOfRange)
    else Ok(NetType(weighted, mirrored.value != plain.value))
  }

  function ValueOr0(o: Option<real>): real
  {
    if o.Some? then o.value else 0.0
  }

  /** An entry of the mirrored array: the last row written at (j, i, t),
      if there is one, else the last row written at (i, j, t), else 0. */
  lemma MirroredEntry(rows: seq<Edge>, weighted: bool, n: nat, T: nat, i: nat, j: nat, t: nat)
    requires Covers(rows, n, T) && |rows| > 0 && i < n && j < n && t < T
    ensures DfToArray(rows, weighted, n, T, NetType(weighted, false)).Ok?
    ensures DfToArray(rows, weighted, n, T, NetType(weighted, true)).Ok?
    ensures var fwd := TableCells(rows, weighted, false);
            DfToArray(rows, weighted, n, T, NetType(weighted, true)).value[i][j][t] ==
              ValueOr0(LastWrite(fwd, i, j, t)) &&
            DfToArray(rows, weighted, n, T, NetType(weighted, false)).value[i][j][t] ==
              (if LastWrite(fwd, j, i, t).Some? then LastWrite(fwd, j, i, t).value
               else ValueOr0(LastWrite(fwd, i, j, t)))
  {
    var fwd := TableCells(rows, weighted, false);
    var both := TableCells(rows, weighted, true);
    assert both == fwd + Swapped(fwd);
    DfToArrayEntries(rows, weighted, n, T, NetType(weighted, false), i, j, t);
    DfToArrayEntries(rows, weighted, n, T, NetType(weighted, true), i, j, t);
    LastWriteAppend(fwd, Swapped(fwd), i, j, t);
    LastWriteSwapped(fwd, i, j, t);
  }

  /** For a table inside its shape the detection succeeds, keeps the
      weighting, and calls the network undirected exactly when the array
      built without mirroring is symmetric. */
  lemma DetectNettypeFacts(rows: seq<Edge>, weighted: bool, n: nat, T: nat)
    requires Covers(rows, n, T) && |rows| > 0
    ensures DetectNettype(rows, weighted, n, T).Ok?
    ensures DfToArray(rows, weighted, n, T, NetType(weighted, true)).Ok?
    ensures DetectNettype(rows, weighted, n, T).value.weighted == weighted
    ensures !DetectNettype(rows, weighted, n, T).value.directed <==>
              IsSymmetric(DfToArray(rows, weighted, n, T, NetType(weighted, true)).value, n, T)
  {
    MirroredEntry(rows, weighted, n, T, rows[0].i, rows[0].j, rows[0].t);
    var G1 := DfToArray(rows, weighted, n, T, NetType(weighted, false)).value;
    var G2 := DfToArray(rows, weighted, n, T, NetType(weighted, true)).value;
    var fwd := TableCells(rows, weighted, false);
    if IsSymmetric(G2, n, T) {
      forall i, j, t | 0 <= i < n && 0 <= j < n && 0 <= t < T ensures G1[i][j][t] == G2[i][j][t] {
        MirroredEntry(rows, weighted, n, T, i, j, t);
        MirroredEntry(rows, weighted, n, T, j, i, t);
      }
      ShapedEqual(G1, G2, n, n, T);
    }
    if G1 == G2 {
      forall i, j, t | 0 <= i < n && 0 <= j < n && 0 <= t < T ensures G2[i][j][t] == G2[j][i][t] {
        MirroredEntry(rows, weighted, n, T, i, j, t);
        MirroredEntry(rows, weighted, n, T, j, i, t);
      }
    }
  }

  /** For a table inside its shape the detection does not fail. */
  lemma DetectNettypeOk(rows: seq<Edge>, weighted: bool, n: nat, T: nat)
    requires Covers(rows, n, T) && |rows| > 0
    ensures DetectNettype(rows, weighted, n, T).Ok?
  {
    DfToArrayEntries(rows, weighted, n, T, NetType(weighted, false), rows[0].i, rows[0].j, rows[0].t);
    DfToArrayEntries(rows, weighted, n, T, NetType(weighted, true), rows[0].i, rows[0].j, rows[0].t);
  }

  // ---------------------------------------------------------------------
  // Rows after _update_network

  /** The table after undirected duplicates are dropped (undirected
      networks only). */
  function Settled(rows: seq<Edge>, nt: NetType): seq<Edge>
  {
    if nt.directed then rows else DedupBy(rows, UndirectedKey)
  }

  /** Settling keeps a directed table as it is; an undirected one keeps one
      row per unordered pair and time, the first, in order. */
  lemma SettledFacts(rows: seq<Edge>, nt: NetType)
    ensures nt.directed ==> Settled(rows, nt) == rows
    ensures forall x :: x in Settled(rows, nt) ==> x in rows
    ensures forall e :: e in rows ==> exists x :: x in Settled(rows, nt) && UndirectedKey(x) == UndirectedKey(e)
    ensures !nt.directed ==> KeysDistinct(Settled(rows, nt), UndirectedKey)
    ensures SubseqOf(Settled(rows, nt), rows)
  {
    DedupByFacts(rows, UndirectedKey);
    SubseqOfSelf(rows);
    if !nt.directed {
      SubseqOfMembers(Settled(rows, nt), rows);
      forall e | e in rows ensures exists x :: x in Settled(rows, nt) && UndirectedKey(x) == UndirectedKey(e) {
        assert UndirectedKey(e) in KeySet(rows, UndirectedKey);
      }
    }
  }

  /** Settling only ever drops rows. */
  lemma SettledMembers(rows: seq<Edge>, nt: NetType)
    ensures forall x :: x in Settled(rows, nt) ==> x in rows
  {
    SettledFacts(rows, nt);
  }

  /** Settling a non-empty table leaves rows, and the shape grown for the
      table is the one grown for the settled rows. */
  lemma SettledShape(rows: seq<Edge>, nt: NetType, n: int, t: int)
    requires |rows| > 0
    ensures |Settled(rows, nt)| > 0
    ensures var s := GrownShape(rows, n, t);
            GrownShape(Settled(rows, nt), s.0, s.1) == s
  {
    SettledFacts(rows, nt);
    assert rows[0] in rows;
    var s := GrownShape(rows, n, t);
    CoversMembers(Settled(rows, nt), rows, s.0, s.1);
    GrownShapeCovered(Settled(rows, nt), s.0, s.1);
  }

  // ---------------------------------------------------------------------
  // _drop_diagonal

  predicate NotSelf(e: Edge)
  {
    e.i != e.j
  }

  /** The sparse diagonal drop keeps exactly the rows with i != j, in order. */
  lemma DropSelfFacts(rows: seq<Edge>)
    ensures forall x :: x in Filter(rows, NotSelf) <==> x in rows && x.i != x.j
    ensures SubseqOf(Filter(rows, NotSelf), rows)
  {
    FilterSubseq(rows, NotSelf);
  }

  /** The table at the end of __init__: self-contacts dropped unless the
      diagonal is kept, then undirected duplicates dropped when an
      undirected nettype was given. */
  function InitRows(rows: seq<Edge>, diagonal: bool, given: Option<NetType>): seq<Edge>
  {
    var kept := if diagonal then rows else Filter(rows, NotSelf);
    if given.Some? && !given.value.directed then DedupBy(kept, UndirectedKey) else kept
  }

  /** What the end of __init__ promises about the table it leaves: it
      keeps only rows it was given, no self-contact survives unless the
      diagonal is kept, and no two rows share an undirected (i, j, t) key
      when an undirected nettype was given. */
  lemma InitRowsFacts(rows: seq<Edge>, diagonal: bool, given: Option<NetType>)
    ensures forall x :: x in InitRows(rows, diagonal, given) ==> x in rows
    ensures !diagonal ==> forall x :: x in InitRows(rows, diagonal, given) ==> x.i != x.j
    ensures given.Some? && !given.value.directed ==>
              KeysDistinct(InitRows(rows, diagonal, given), UndirectedKey)
  {
    var kept := if diagonal then rows else Filter(rows, NotSelf);
    DropSelfFacts(rows);
    assert forall x :: x in kept ==> x in rows;
    if given.Some? && !given.value.directed {
      DedupByFacts(kept, UndirectedKey);
      SubseqOfMembers(DedupBy(kept, UndirectedKey), kept);
    }
  }

  /** The nettype string given to __init__, if any: an empty string counts
      as none. */
  function GivenType(nettype: Option<string>): (r: Option<NetType>)
    ensures r.Some? ==> nettype.Some? && nettype.value in {"bu", "bd", "wu", "wd"}
    ensures nettype.Some? && nettype.value in {"bu", "wu"} ==> r.Some? && !r.value.directed
  {
    if nettype.Some? && nettype.value != "" then
      NetTypeNames(nettype.value);
      ParseNetType(nettype.value)
    else None
  }

  // ---------------------------------------------------------------------
  // drop_edge

  function Key(e: Edge): (nat, nat, nat)
  {
    (e.i, e.j, e.t)
  }

  /** The rows whose (i, j, t) is not listed in drop, in order. */
  function Without(rows: seq<Edge>, drop: seq<(nat, nat, nat)>): (r: seq<Edge>)
  {
    if |rows| == 0 then []
    else
      var rest := Without(rows[..|rows| - 1], drop);
      if Key(rows[|rows| - 1]) in drop then rest else rest + [rows[|rows| - 1]]
  }

  /** Dropping a list of edges one at a time drops them all. */
  lemma {:induction false} WithoutStep(rows: seq<Edge>, drop: seq<(nat, nat, nat)>, e: (nat, nat, nat))
    ensures Without(Without(rows, drop), [e]) == Without(rows, drop + [e])
  {
    if |rows| > 0 {
      var init := rows[..|rows| - 1];
      var last := rows[|rows| - 1];
      WithoutStep(init, drop, e);
      var rest := Without(init, drop);
      if Key(last) !in drop {
        assert (rest + [last])[..|rest|] == rest;
      }
    }
  }

  /** Removing listed edges keeps every other row and nothing else, in order. */
  lemma {:induction false} WithoutFacts(rows: seq<Edge>, drop: seq<(nat, nat, nat)>)
    ensures forall x :: x in Without(rows, drop) <==> x in rows && Key(x) !in drop
    ensures SubseqOf(Without(rows, drop), rows)
    ensures |drop| == 0 ==> Without(rows, drop) == rows
  {
    if |rows| > 0 {
      var init := rows[..|rows| - 1];
      var last := rows[|rows| - 1];
      WithoutFacts(init, drop);
      assert rows == init + [last];
      var rest := Without(init, drop);
      if Key(last) in drop {
        FilterSubseqExtend(rest, rows);
      } else {
        assert (rest + [last])[..|rest|] == rest;
        assert rows[..|rows| - 1] == init;
      }
    }
  }

  // ---------------------------------------------------------------------
  // network_from_array

  /** A 2-D (node, node) array or a 3-D (node, node, time) array. */
  datatype ArrayInput =
    | Array2(M: Matrix, a: nat, b: nat)
    | Array3(G: Graphlet, a: nat, b: nat, c: nat)

  predicate WellShaped(x: ArrayInput)
  {
    match x
    case Array2(M, a, b) => IsMatrix(M, a, b)
    case Array3(G, a, b, c) => Shaped(G, a, b, c)
  }

  /** The array as (node, node, time): a 2-D array is one time slice. */
  function AsGraphlet(x: ArrayInput): (G: Graphlet)
    requires WellShaped(x)
    ensures Shaped(G, x.a, x.b, Depth(x))
    ensures x.Array2? ==> forall i, j :: 0 <= i < x.a && 0 <= j < x.b ==> G[i][j][0] == x.M[i][j]
    ensures x.Array3? ==> G == x.G
  {
    match x
    case Array2(M, a, b) => seq(a, i requires 0 <= i < a => seq(b, j requires 0 <= j < b => [M[i][j]]))
    case Array3(G, _, _, _) => G
  }

  function Depth(x: ArrayInput): nat
  {
    if x.Array2? then 1 else x.c
  }

  /** The positions where G is nonzero, in the order np.where lists them. */
  function NonzeroAt(G: Graphlet, a: nat, b: nat, c: nat): seq<(nat, nat, nat)>
  {
    Filter(Triples(a, b, c), (p: (nat, nat, nat)) => At(G, p.0, p.1, p.2) != 0.0)
  }

  /** The positions where G is exactly 1, in the same order. */
  function OnesAt(G: Graphlet, a: nat, b: nat, c: nat): seq<(nat, nat, nat)>
  {
    Filter(Triples(a, b, c), (p: (nat, nat, nat)) => At(G, p.0, p.1, p.2) == 1.0)
  }

  /** np.unique(G) is exactly [0, 1]. */
  predicate ZeroOne(G: Graphlet, a: nat, b: nat, c: nat)
    requires Shaped(G, a, b, c)
  {
    (forall i, j, t :: 0 <= i < a && 0 <= j < b && 0 <= t < c ==> G[i][j][t] == 0.0 || G[i][j][t] == 1.0) &&
    (exists i, j, t :: 0 <= i < a && 0 <= j < b && 0 <= t < c && G[i][j][t] == 0.0) &&
    (exists i, j, t :: 0 <= i < a && 0 <= j < b && 0 <= t < c && G[i][j][t] == 1.0)
  }

  /** More than three quarters of the entries are zero. */
  predicate MostlyZero(G: Graphlet, a: nat, b: nat, c: nat)
  {
    a * b * c > 4 * |NonzeroAt(G, a, b, c)|
  }

  /** network_from_array's choice of the sparse form. */
  predicate KeepsSparse(x: ArrayInput, forcesparse: bool)
    requires WellShaped(x)
  {
    MostlyZero(AsGraphlet(x), x.a, x.b, Depth(x)) || forcesparse
  }

  /** An edge table with or without the weight column. */
  datatype Table = Table(rows: seq<Edge>, weighted: bool)

  /** One row per listed position, carrying the entry there when weighted. */
  function RowsAt(G: Graphlet, P: seq<(nat, nat, nat)>, weighted: bool): (rows: seq<Edge>)
    ensures |rows| == |P|
    ensures forall k :: 0 <= k < |P| ==> Key(rows[k]) == P[k]
    ensures weighted ==> forall k :: 0 <= k < |P| ==> rows[k].w == At(G, P[k].0, P[k].1, P[k].2)
  {
    seq(|P|, k requires 0 <= k < |P| =>
      Edge(P[k].0, P[k].1, P[k].2, if weighted then At(G, P[k].0, P[k].1, P[k].2) else 0.0))
  }

  /** The table network_from_array builds: (i, j, t) rows at the ones of a
      0/1 array, else (i, j, t, weight) rows at the nonzero entries. */
  function ArrayTable(G: Graphlet, a: nat, b: nat, c: nat): Table
    requires Shaped(G, a, b, c)
  {
    if ZeroOne(G, a, b, c) then Table(RowsAt(G, OnesAt(G, a, b, c), false), false)
    else Table(RowsAt(G, NonzeroAt(G, a, b, c), true), true)
  }

  /** The table network_from_array builds from its input. */
  function ImportTable(x: ArrayInput): Table
    requires WellShaped(x)
  {
    ArrayTable(AsGraphlet(x), x.a, x.b, Depth(x))
  }

  /** The positions a filter over all positions keeps: exactly those that
      satisfy it, in row-major order. */
  lemma FilteredPositions(a: nat, b: nat, c: nat, pred: ((nat, nat, nat)) -> bool)
    ensures var P: seq<(nat, nat, nat)> := Filter<(nat, nat, nat)>(Triples(a, b, c), pred);
            (forall x: (nat, nat, nat) :: x in P <==> x.0 < a && x.1 < b && x.2 < c && pred(x)) &&
            SortedBy<(nat, nat, nat)>(P, Less3)
  {
    TriplesFacts(a, b, c);
    FilterSorted<(nat, nat, nat)>(Triples(a, b, c), pred, Less3);
  }

  /** Rows built at a row-major list of exactly the nonzero positions. */
  lemma RowsAtFacts(G: Graphlet, a: nat, b: nat, c: nat, P: seq<(nat, nat, nat)>, weighted: bool)
    requires Shaped(G, a, b, c)
    requires forall x: (nat, nat, nat) :: x in P <==> x.0 < a && x.1 < b && x.2 < c && At(G, x.0, x.1, x.2) != 0.0
    requires SortedBy<(nat, nat, nat)>(P, Less3)
    ensures var rows := RowsAt(G, P, weighted);
            (forall k :: 0 <= k < |rows| ==>
               rows[k].i < a && rows[k].j < b && rows[k].t < c &&
               G[rows[k].i][rows[k].j][rows[k].t] != 0.0 &&
               (weighted ==> rows[k].w == G[rows[k].i][rows[k].j][rows[k].t])) &&
            (forall i, j, t :: 0 <= i < a && 0 <= j < b && 0 <= t < c && G[i][j][t] != 0.0 ==>
               exists k :: 0 <= k < |rows| && Key(rows[k]) == (i, j, t)) &&
            (forall p, q :: 0 <= p < q < |rows| ==> Less3(Key(rows[p]), Key(rows[q])))
  {
    var rows := RowsAt(G, P, weighted);
    forall k | 0 <= k < |rows|
      ensures rows[k].i < a && rows[k].j < b && rows[k].t < c &&
              G[rows[k].i][rows[k].j][rows[k].t] != 0.0
    {
      assert P[k] in P;
    }
    forall i, j, t | 0 <= i < a && 0 <= j < b && 0 <= t < c && G[i][j][t] != 0.0
      ensures exists k :: 0 <= k < |rows| && Key(rows[k]) == (i, j, t)
    {
      assert (i, j, t) in P;
      var k :| 0 <= k < |P| && P[k] == (i, j, t);
      assert Key(rows[k]) == (i, j, t);
    }
  }

  /** The rows are exactly the nonzero entries, each once, in row-major
      order; a 0/1 array gives unweighted rows, any other array rows
      carrying the entry's value. */
  lemma ArrayTableFacts(G: Graphlet, a: nat, b: nat, c: nat)
    requires Shaped(G, a, b, c)
    ensures var tb := ArrayTable(G, a, b, c);
            (!tb.weighted <==> ZeroOne(G, a, b, c)) &&
            (forall k :: 0 <= k < |tb.rows| ==>
               tb.rows[k].i < a && tb.rows[k].j < b && tb.rows[k].t < c &&
               G[tb.rows[k].i][tb.rows[k].j][tb.rows[k].t] != 0.0 &&
               (tb.weighted ==> tb.rows[k].w == G[tb.rows[k].i][tb.rows[k].j][tb.rows[k].t])) &&
            (forall i, j, t :: 0 <= i < a && 0 <= j < b && 0 <= t < c && G[i][j][t] != 0.0 ==>
               exists k :: 0 <= k < |tb.rows| && Key(tb.rows[k]) == (i, j, t)) &&
            (forall p, q :: 0 <= p < q < |tb.rows| ==> Less3(Key(tb.rows[p]), Key(tb.rows[q])))
  {
    if ZeroOne(G, a, b, c) {
      var pred := (p: (nat, nat, nat)) => At(G, p.0, p.1, p.2) == 1.0;
      FilteredPositions(a, b, c, pred);
      RowsAtFacts(G, a, b, c, OnesAt(G, a, b, c), false);
    } else {
      var pred := (p: (nat, nat, nat)) => At(G, p.0, p.1, p.2) != 0.0;
      FilteredPositions(a, b, c, pred);
      RowsAtFacts(G, a, b, c, NonzeroAt(G, a, b, c), true);
    }
  }

  // ---------------------------------------------------------------------
  // The container

  /** The data a network is imported from. */
  datatype Input =
    | FromArray(x: ArrayInput)
    | FromEdgelist(edges: seq<Edge>, weighted: bool)

  /** Importing three-column rows into a table with a weight column, or
      weighted rows into a non-empty table without one, leaves missing
      weights (NaN) in the combined table. */
  predicate MixesWeights(rows: seq<Edge>, weighted: bool, ew: bool)
  {
    (weighted && !ew) || (!weighted && ew && |rows| > 0)
  }

  /** The argument checks of __init__, in the order they are made: the
      nettype string, the number of sources, the timetype string. An
      empty string counts as not given. */
  function InitCheck(nettype: Option<string>, timetype: Option<string>, inputs: seq<Input>): (o: Outcome)
    ensures o == Pass <==>
              (nettype.None? || nettype.value == "" || nettype.value in {"bu", "bd", "wu", "wd"}) &&
              |inputs| <= 1 &&
              (timetype.None? || timetype.value == "" || timetype.value in {"discrete", "continuous"})
    ensures nettype.Some? && nettype.value != "" && nettype.value !in {"bu", "bd", "wu", "wd"} ==>
              o == Fail(BadValue("nettype"))
  {
    if nettype.Some? && nettype.value != "" && nettype.value !in {"bu", "bd", "wu", "wd"} then
      Fail(BadValue("nettype"))
    else if |inputs| > 1 then Fail(TwoSources)
    else if timetype.Some? && timetype.value != "" && timetype.value !in {"discrete", "continuous"} then
      Fail(BadValue("timetype"))
    else Pass
  }

  class TemporalNetwork {
    /** False once a dense array is kept instead of an edge table. */
    var sparse: bool
    /** The edge table (sparse form). */
    var rows: seq<Edge>
    /** The edge table has a weight column. */
    var weighted: bool
    /** The array and its shape (dense form). */
    var dense: Graphlet
    var shape: (nat, nat, nat)
    var N: int
    var T: int
    var netshape: (nat, nat)
    var nettype: Option<NetType>
    /** Self-contacts are kept. */
    var diagonal: bool

    /** The fields __init__ sets before importing any data: an empty
        sparse table, with a weight column for a weighted nettype. */
    constructor (n: Option<int>, t: Option<int>, nt: Option<NetType>, diag: bool)
      ensures sparse && rows == [] && weighted == (nt.Some? && nt.value.weighted)
      ensures N == (if n.Some? then n.value else 0) && T == (if t.Some? then t.value else 0)
      ensures nettype == nt && diagonal == diag && netshape == (0, 0)
    {
      sparse := true;
      rows := [];
      weighted := nt.Some? && nt.value.weighted;
      dense := [];
      shape := (0, 0, 0);
      N := if n.Some? then n.value else 0;
      T := if t.Some? then t.value else 0;
      netshape := (0, 0);
      nettype := nt;
      diagonal := diag;
    }

    /** _calc_netshape: the shape of the array, or the smallest shape that
        holds every row, never smaller than the N and T already set. */
    method CalcNetshape()
      modifies this`N, this`T, this`netshape
      ensures !sparse ==>
                N == old(N) && T == old(T) &&
                netshape == (if shape.0 == 0 then (0, 0) else (shape.0, shape.2))
      ensures sparse && |rows| == 0 ==> N == old(N) && T == old(T) && netshape == (0, 0)
      ensures sparse && |rows| > 0 ==>
                N == Max(old(N), NodeBound(rows)) && T == Max(old(T), TimeBound(rows)) &&
                netshape == (N as nat, T as nat) && Covers(rows, N, T)
    {
      if !sparse {
        netshape := if shape.0 == 0 then (0, 0) else (shape.0, shape.2);
      } else if |rows| == 0 {
        netshape := (0, 0);
      } else {
        var n := NodeBound(rows);
        var t := TimeBound(rows);
        if N > n { n := N as nat; } else { N := n; }
        if T > t { t := T as nat; } else { T := t; }
        netshape := (n, t);
      }
    }

    /** _set_nettype: only when no nettype is set and the table has rows. */
    method SetNettype() returns (o: Outcome)
      requires sparse
      modifies this`nettype
      ensures old(nettype).Some? || |rows| == 0 ==> nettype == old(nettype) && o == Pass
      ensures old(nettype).None? && |rows| > 0 && DetectNettype(rows, weighted, netshape.0, netshape.1).Ok? ==>
                nettype == Some(DetectNettype(rows, weighted, netshape.0, netshape.1).value) && o == Pass
      ensures old(nettype).None? && |rows| > 0 && DetectNettype(rows, weighted, netshape.0, netshape.1).Err? ==>
                o == Fail(DetectNettype(rows, weighted, netshape.0, netshape.1).error)
    {
      o := Pass;
      if nettype.None? && |rows| > 0 {
        match DetectNettype(rows, weighted, netshape.0, netshape.1)
        case Ok(nt) => nettype := Some(nt);
        case Err(e) => o := Fail(e);
      }
    }

    /** _drop_duplicate_ij. */
    method DropDuplicateIJ()
      modifies this`rows
      ensures rows == DedupBy(old(rows), UndirectedKey)
    {
      rows := DropIJDuplicates(rows);
    }

    /** _update_network: recompute the shape, detect a missing nettype,
        and drop undirected duplicates. It fails only when neither a
        nettype nor any row is there to decide the nettype. */
    method UpdateNetwork() returns (o: Outcome)
      requires sparse
      modifies this`N, this`T, this`netshape, this`nettype, this`rows
      ensures o.Fail? <==> old(nettype).None? && |old(rows)| == 0
      ensures o.Fail? ==> o == Fail(NoNettype)
      ensures o == Pass ==> nettype.Some? && (old(nettype).Some? ==> nettype == old(nettype))
      ensures o == Pass ==> rows == Settled(old(rows), nettype.value)
      ensures o == Pass && old(nettype).None? ==>
                DetectNettype(old(rows), weighted, netshape.0, netshape.1) == Ok(nettype.value)
      ensures o.Fail? ==> rows == old(rows)
      ensures |old(rows)| > 0 ==>
                N == Max(old(N), NodeBound(old(rows))) && T == Max(old(T), TimeBound(old(rows))) &&
                netshape == GrownShape(old(rows), old(N), old(T)) && Covers(rows, N, T)
      ensures |old(rows)| == 0 ==> N == old(N) && T == old(T) && netshape == (0, 0)
    {
      CalcNetshape();
      if |rows| > 0 {
        DetectNettypeOk(rows, weighted, netshape.0, netshape.1);
      }
      o := SetNettype();
      if o == Pass && nettype.None? {
        o := Fail(NoNettype);
      } else if o == Pass {
        ghost var before := rows;
        if !nettype.value.directed {
          DropDuplicateIJ();
        }
        SettledMembers(before, nettype.value);
        assert rows == Settled(before, nettype.value);
        CoversMembers(rows, before, N, T);
      }
    }

    /** _drop_diagonal: drop the rows with i == j, or zero the diagonal of
        a dense array. */
    method DropDiagonal()
      modifies this`rows, this`dense
      ensures sparse ==> rows == Filter(old(rows), NotSelf) && dense == old(dense)
      ensures !sparse ==> dense == WithDiagonal(old(dense), 0.0) && rows == old(rows)
    {
      if sparse {
        rows := Filter(rows, NotSelf);
      } else {
        dense := WithDiagonal(dense, 0.0);
      }
    }

    /** network_from_array: keep a mostly-zero array (or any array when
        forcesparse) as an edge table, any other as a dense array; either
        way N and T are its first and last axes. */
    method NetworkFromArray(x: ArrayInput, forcesparse: bool) returns (o: Outcome)
      requires WellShaped(x) && sparse
      modifies this`rows, this`weighted, this`dense, this`shape, this`sparse
      modifies this`N, this`T, this`netshape, this`nettype
      ensures KeepsSparse(x, forcesparse) ==> sparse && weighted == ImportTable(x).weighted
      ensures KeepsSparse(x, forcesparse) ==> (o.Fail? <==> old(nettype).None? && |ImportTable(x).rows| == 0)
      ensures KeepsSparse(x, forcesparse) && o.Fail? ==> o == Fail(NoNettype)
      ensures KeepsSparse(x, forcesparse) && o == Pass ==>
                nettype.Some? && rows == Settled(ImportTable(x).rows, nettype.value)
      ensures KeepsSparse(x, forcesparse) && o == Pass && old(nettype).Some? ==> nettype == old(nettype)
      ensures KeepsSparse(x, forcesparse) && o == Pass && old(nettype).None? ==>
                var tb := ImportTable(x);
                var s := GrownShape(tb.rows, old(N), old(T));
                DetectNettype(tb.rows, tb.weighted, s.0, s.1) == Ok(nettype.value)
      ensures !KeepsSparse(x, forcesparse) ==>
                !sparse && dense == AsGraphlet(x) && shape == (x.a, x.b, Depth(x))
      ensures !KeepsSparse(x, forcesparse) && x.a == x.b ==>
                o == Pass && nettype == Some(GenNettype(AsGraphlet(x), x.a, Depth(x)))
      ensures !KeepsSparse(x, forcesparse) && x.a != x.b ==> o == Fail(NotSquare)
      ensures o == Pass ==> N == x.a && T == Depth(x) && netshape == (x.a, Depth(x)) && nettype.Some?
    {
      if KeepsSparse(x, forcesparse) {
        o := ImportRows(ImportTable(x), x.a, Depth(x));
      } else {
        o := ImportDense(x);
      }
    }

    /** The sparse branch of network_from_array: the table becomes the
        network, _update_network settles it, and the array's shape (n, t)
        is recorded. */
    method ImportRows(tb: Table, n: nat, t: nat) returns (o: Outcome)
      requires sparse
      modifies this`rows, this`weighted, this`N, this`T, this`netshape, this`nettype
      ensures sparse && weighted == tb.weighted
      ensures o == Pass ==> N == n && T == t && netshape == (n, t)
      ensures o.Fail? <==> old(nettype).None? && |tb.rows| == 0
      ensures o.Fail? ==> o == Fail(NoNettype)
      ensures o == Pass ==> nettype.Some? && rows == Settled(tb.rows, nettype.value)
      ensures o == Pass && old(nettype).Some? ==> nettype == old(nettype)
      ensures o == Pass && old(nettype).None? ==>
                var s := GrownShape(tb.rows, old(N), old(T));
                DetectNettype(tb.rows, tb.weighted, s.0, s.1) == Ok(nettype.value)
    {
      rows := tb.rows;
      weighted := tb.weighted;
      o := UpdateNetwork();
      if o == Pass {
        N, T, netshape := n, t, (n, t);
      }
    }

    /** The dense branch of network_from_array: the array is kept and its
        nettype detected, which needs a square array; N and T are its first
        and last axes. */
    method ImportDense(x: ArrayInput) returns (o: Outcome)
      requires WellShaped(x)
      modifies this`dense, this`shape, this`sparse, this`nettype, this`N, this`T, this`netshape
      ensures !sparse && dense == AsGraphlet(x) && shape == (x.a, x.b, Depth(x))
      ensures x.a == x.b ==> o == Pass && nettype == Some(GenNettype(AsGraphlet(x), x.a, Depth(x)))
      ensures x.a != x.b ==> o == Fail(NotSquare)
      ensures o == Pass ==> N == x.a && T == Depth(x) && netshape == (x.a, Depth(x))
    {
      dense := AsGraphlet(x);
      shape := (x.a, x.b, Depth(x));
      sparse := false;
      if x.a != x.b {
        return Fail(NotSquare);
      }
      nettype := Some(GenNettype(dense, x.a, Depth(x)));
      N, T, netshape := x.a, Depth(x), (x.a, Depth(x));
      o := Pass;
    }

    /** network_from_edgelist: the rows as given; an empty list fails when
        its first element is read. */
    method NetworkFromEdgelist(edges: seq<Edge>, ew: bool) returns (o: Outcome)
      requires sparse
      modifies this`rows, this`weighted, this`N, this`T, this`netshape, this`nettype
      ensures |edges| == 0 ==> o == Fail(IndexOutOfRange)
      ensures o == Pass ==> nettype.Some?
      ensures |edges| > 0 ==>
                o == Pass && weighted == ew && nettype.Some? && rows == Settled(edges, nettype.value) &&
                (old(nettype).Some? ==> nettype == old(nettype)) &&
                (old(nettype).None? ==> DetectNettype(edges, ew, netshape.0, netshape.1) == Ok(nettype.value)) &&
                N == Max(old(N), NodeBound(edges)) && T == Max(old(T), TimeBound(edges)) &&
                netshape == GrownShape(edges, old(N), old(T)) && Covers(rows, N, T)
    {
      if |edges| == 0 {
        return Fail(IndexOutOfRange);
      }
      rows := edges;
      weighted := ew;
      o := UpdateNetwork();
    }

    /** add_edge: append rows to a sparse table and update the network. */
    method AddEdge(edges: seq<Edge>, ew: bool) returns (o: Outcome)
      modifies this`rows, this`weighted, this`N, this`T, this`netshape, this`nettype
      ensures !sparse ==> o == Fail(DenseNetwork) && rows == old(rows)
      ensures sparse && |edges| == 0 ==> o == Fail(IndexOutOfRange) && rows == old(rows)
      ensures sparse && |edges| > 0 && MixesWeights(old(rows), old(weighted), ew) ==>
                o == Fail(NonFinite) && rows == old(rows)
      ensures sparse && |edges| > 0 && !MixesWeights(old(rows), old(weighted), ew) ==>
                o == Pass && weighted == (old(weighted) || ew) && nettype.Some? &&
                (old(nettype).Some? ==> nettype == old(nettype)) &&
                rows == Settled(old(rows) + edges, nettype.value) &&
                (old(nettype).None? ==>
                   DetectNettype(old(rows) + edges, weighted, netshape.0, netshape.1) == Ok(nettype.value)) &&
                N == Max(old(N), NodeBound(old(rows) + edges)) && T == Max(old(T), TimeBound(old(rows) + edges)) &&
                netshape == GrownShape(old(rows) + edges, old(N), old(T)) && Covers(rows, N, T)
      ensures o.Fail? ==> unchanged(this)
    {
      if !sparse {
        return Fail(DenseNetwork);
      }
      if |edges| == 0 {
        return Fail(IndexOutOfRange);
      }
      if MixesWeights(rows, weighted, ew) {
        return Fail(NonFinite);
      }
      rows := rows + edges;
      weighted := weighted || ew;
      o := UpdateNetwork();
    }

    /** drop_edge: remove, one listed edge at a time, every row at that
        (i, j, t), then update the network. */
    method DropEdge(edges: seq<(nat, nat, nat)>) returns (o: Outcome)
      modifies this`rows, this`N, this`T, this`netshape, this`nettype
      ensures |edges| == 0 ==> o == Fail(IndexOutOfRange) && rows == old(rows)
      ensures |edges| > 0 && !sparse ==> o == Fail(DenseNetwork) && rows == old(rows)
      ensures |edges| > 0 && sparse ==>
                (o.Fail? <==> old(nettype).None? && |Without(old(rows), edges)| == 0)
      ensures o == Pass ==>
                nettype.Some? && (old(nettype).Some? ==> nettype == old(nettype)) &&
                rows == Settled(Without(old(rows), edges), nettype.value)
      ensures o == Pass && old(nettype).None? ==>
                DetectNettype(Without(old(rows), edges), weighted, netshape.0, netshape.1) == Ok(nettype.value)
      ensures |edges| > 0 && sparse && |Without(old(rows), edges)| == 0 ==>
                rows == [] && N == old(N) && T == old(T) && netshape == (0, 0)
      ensures |edges| > 0 && sparse && |Without(old(rows), edges)| > 0 ==>
                var W := Without(old(rows), edges);
                N == Max(old(N), NodeBound(W)) && T == Max(old(T), TimeBound(W)) &&
                netshape == GrownShape(W, old(N), old(T)) && Covers(rows, N, T)
      ensures |edges| == 0 || !sparse ==> unchanged(this)
    {
      if |edges| == 0 {
        return Fail(IndexOutOfRange);
      }
      if !sparse {
        return Fail(DenseNetwork);
      }
      WithoutFacts(rows, []);
      for k := 0 to |edges|
        modifies this`rows
        invariant rows == Without(old(rows), edges[..k])
      {
        WithoutStep(old(rows), edges[..k], edges[k]);
        assert edges[..k + 1] == edges[..k] + [edges[k]];
        rows := Without(rows, [edges[k]]);
      }
      assert edges[..|edges|] == edges;
      o := UpdateNetwork();
    }

    /** df_to_array on the network: the array of the table at the current
        shape. Reading the nettype of a network that never had one set
        fails before anything else; a dense network with nodes cannot be
        converted (the array has no table to read). */
    function ToArray(): (r: Result<Graphlet>)
      reads this
      ensures nettype.None? ==> r == Err(NoNettype)
      ensures nettype.Some? && sparse && |rows| == 0 ==> r == Ok(Zeros(netshape.0, netshape.0, netshape.1))
      ensures nettype.Some? && !sparse ==> (r.Ok? <==> shape.0 == 0)
      ensures r.Ok? ==> Shaped(r.value, netshape.0, netshape.0, netshape.1)
    {
      if nettype.None? then Err(NoNettype)
      else if !sparse then
        if shape.0 == 0 then Ok(Zeros(netshape.0, netshape.0, netshape.1)) else Err(DenseNetwork)
      else if |rows| == 0 then Ok(Zeros(netshape.0, netshape.0, netshape.1))
      else DfToArray(rows, weighted, netshape.0, netshape.1, nettype.value)
    }

    /** The row part of the end of __init__: drop self-contacts unless the
        diagonal is kept, and drop undirected duplicates when an undirected
        nettype was given; a dense array has its diagonal zeroed instead. */
    method CleanRows(given: Option<NetType>)
      modifies this`rows, this`dense
      ensures sparse ==> rows == InitRows(old(rows), diagonal, given)
      ensures !sparse ==> rows == old(rows)
      ensures !sparse && !diagonal ==> dense == WithDiagonal(old(dense), 0.0)
      ensures !sparse && diagonal ==> dense == old(dense)
    {
      if !diagonal {
        DropDiagonal();
      }
      if given.Some? && sparse && !given.value.directed {
        DropDuplicateIJ();
      }
    }

    /** The end of __init__: recompute the shape, then clean the rows. */
    method FinishInit(given: Option<NetType>)
      modifies this`N, this`T, this`netshape, this`rows, this`dense
      ensures sparse ==> rows == InitRows(old(rows), diagonal, given)
      ensures !sparse ==> rows == old(rows)
      ensures forall x :: x in rows ==> x in old(rows)
      ensures sparse && |old(rows)| == 0 ==> rows == [] && N == old(N) && T == old(T) && netshape == (0, 0)
      ensures sparse && |old(rows)| > 0 ==>
                N == Max(old(N), NodeBound(old(rows))) && T == Max(old(T), TimeBound(old(rows))) &&
                netshape == GrownShape(old(rows), old(N), old(T))
      ensures !sparse ==>
                N == old(N) && T == old(T) && netshape == (if shape.0 == 0 then (0, 0) else (shape.0, shape.2))
      ensures sparse ==> Covers(rows, netshape.0, netshape.1)
      ensures sparse && !diagonal ==> forall e :: e in rows ==> e.i != e.j
      ensures sparse && given.Some? && !given.value.directed ==> KeysDistinct(rows, UndirectedKey)
      ensures !sparse && !diagonal ==> dense == WithDiagonal(old(dense), 0.0)
      ensures !sparse && diagonal ==> dense == old(dense)
    {
      CalcNetshape();
      ghost var r0 := rows;
      CleanRows(given);
      if sparse {
        InitRowsFacts(r0, diagonal, given);
        CoversMembers(rows, r0, netshape.0, netshape.1);
      }
    }

    /** TemporalNetwork(...) with at most one data source: the argument
        checks, the import, then the end of __init__. The new network holds
        the imported data: the edge list or the array's table, settled by
        its nettype, without self-contacts unless the diagonal is kept, and
        de-duplicated when an undirected nettype was given; or the dense
        array, its diagonal zeroed unless kept. */
    static method Create(n: Option<int>, t: Option<int>, nettype: Option<string>, timetype: Option<string>,
                         inputs: seq<Input>, diagonal: bool, forcesparse: bool)
      returns (r: Result<TemporalNetwork>)
      requires forall k :: 0 <= k < |inputs| && inputs[k].FromArray? ==> WellShaped(inputs[k].x)
      ensures InitCheck(nettype, timetype, inputs).Fail? ==> r == Err(InitCheck(nettype, timetype, inputs).error)
      ensures r.Ok? ==> fresh(r.value) && r.value.diagonal == diagonal
      ensures InitCheck(nettype, timetype, inputs) == Pass && |inputs| == 0 ==>
                r.Ok? && r.value.sparse && r.value.rows == [] && r.value.netshape == (0, 0) &&
                r.value.nettype == GivenType(nettype) && r.value.N == OrZero(n) && r.value.T == OrZero(t)
      ensures r.Ok? && |inputs| == 1 ==> r.value.nettype.Some?
      ensures InitCheck(nettype, timetype, inputs) == Pass && |inputs| == 1 && inputs[0].FromEdgelist? ==>
                EdgelistImported(r, n, t, GivenType(nettype), diagonal, inputs[0].edges, inputs[0].weighted)
      ensures InitCheck(nettype, timetype, inputs) == Pass && |inputs| == 1 && inputs[0].FromArray? ==>
                ArrayImported(r, n, t, GivenType(nettype), diagonal, inputs[0].x, forcesparse)
      ensures r.Ok? && r.value.sparse ==> Covers(r.value.rows, r.value.netshape.0, r.value.netshape.1)
      ensures r.Ok? && r.value.sparse && !diagonal ==> forall e :: e in r.value.rows ==> e.i != e.j
      ensures r.Ok? && r.value.sparse && nettype.Some? && nettype.value in {"bu", "wu"} ==>
                KeysDistinct(r.value.rows, UndirectedKey)
    {
      var check := InitCheck(nettype, timetype, inputs);
      if check.Fail? {
        return Err(check.error);
      }
      var nt := GivenType(nettype);
      if |inputs| == 0 {
        var net := new TemporalNetwork(n, t, nt, diagonal);
        net.FinishInit(nt);
        return Ok(net);
      }
      match inputs[0] {
        case FromArray(x) =>
          r := CreateFromArray(n, t, nt, diagonal, x, forcesparse);
        case FromEdgelist(es, w) =>
          r := CreateFromEdgelist(n, t, nt, diagonal, es, w);
      }
    }

    /** __init__ importing an edge list (see EdgelistImported). */
    static method CreateFromEdgelist(n: Option<int>, t: Option<int>, nt: Option<NetType>, diagonal: bool,
                                     es: seq<Edge>, w: bool)
      returns (r: Result<TemporalNetwork>)
      ensures EdgelistImported(r, n, t, nt, diagonal, es, w)
      ensures r.Ok? ==> fresh(r.value) && r.value.diagonal == diagonal && r.value.nettype.Some? && r.value.sparse
      ensures r.Ok? ==> Covers(r.value.rows, r.value.netshape.0, r.value.netshape.1)
      ensures r.Ok? && !diagonal ==> forall e :: e in r.value.rows ==> e.i != e.j
      ensures r.Ok? && nt.Some? && !nt.value.directed ==> KeysDistinct(r.value.rows, UndirectedKey)
    {
      var net := new TemporalNetwork(n, t, nt, diagonal);
      var o := net.InitFromEdgelist(es, w, nt);
      if o.Fail? {
        return Err(o.error);
      }
      r := Ok(net);
    }

    /** network_from_edgelist followed by the end of __init__. */
    method InitFromEdgelist(es: seq<Edge>, w: bool, given: Option<NetType>) returns (o: Outcome)
      requires sparse
      modifies this`rows, this`weighted, this`N, this`T, this`netshape, this`nettype, this`dense
      ensures |es| == 0 ==> o == Fail(IndexOutOfRange)
      ensures |es| > 0 ==> o == Pass && sparse && weighted == w && nettype.Some?
      ensures |es| > 0 && old(nettype).Some? ==> nettype == old(nettype)
      ensures |es| > 0 && old(nettype).None? ==>
                var s := GrownShape(es, old(N), old(T));
                DetectNettype(es, w, s.0, s.1) == Ok(nettype.value)
      ensures |es| > 0 ==> rows == InitRows(Settled(es, nettype.value), diagonal, given)
      ensures |es| > 0 ==> netshape == GrownShape(es, old(N), old(T)) && N == netshape.0 && T == netshape.1
      ensures o == Pass ==> Covers(rows, netshape.0, netshape.1)
      ensures o == Pass && !diagonal ==> forall e :: e in rows ==> e.i != e.j
      ensures o == Pass && given.Some? && !given.value.directed ==> KeysDistinct(rows, UndirectedKey)
    {
      o := NetworkFromEdgelist(es, w);
      if o.Fail? {
        return;
      }
      SettledShape(es, nettype.value, old(N), old(T));
      FinishInit(given);
    }

    /** __init__ importing an array (see ArrayImported). */
    static method CreateFromArray(n: Option<int>, t: Option<int>, nt: Option<NetType>, diagonal: bool,
                                  x: ArrayInput, forcesparse: bool)
      returns (r: Result<TemporalNetwork>)
      requires WellShaped(x)
      ensures ArrayImported(r, n, t, nt, diagonal, x, forcesparse)
      ensures r.Ok? ==> fresh(r.value) && r.value.diagonal == diagonal && r.value.nettype.Some?
      ensures r.Ok? && r.value.sparse ==> Covers(r.value.rows, r.value.netshape.0, r.value.netshape.1)
      ensures r.Ok? && r.value.sparse && !diagonal ==> forall e :: e in r.value.rows ==> e.i != e.j
      ensures r.Ok? && r.value.sparse && nt.Some? && !nt.value.directed ==> KeysDistinct(r.value.rows, UndirectedKey)
    {
      var net := new TemporalNetwork(n, t, nt, diagonal);
      var o := net.InitFromArray(x, forcesparse, nt);
      if o.Fail? {
        return Err(o.error);
      }
      r := Ok(net);
    }

    /** network_from_array followed by the end of __init__: the array is
        kept as a settled, cleaned table, or as a dense array with its
        diagonal zeroed unless kept. */
    method InitFromArray(x: ArrayInput, forcesparse: bool, given: Option<NetType>) returns (o: Outcome)
      requires WellShaped(x) && sparse
      modifies this`rows, this`weighted, this`dense, this`shape, this`sparse
      modifies this`N, this`T, this`netshape, this`nettype
      ensures KeepsSparse(x, forcesparse) ==>
                var tb := ImportTable(x);
                (o.Fail? <==> old(nettype).None? && |tb.rows| == 0) &&
                (o.Fail? ==> o == Fail(NoNettype)) &&
                (o == Pass ==>
                   sparse && weighted == tb.weighted && nettype.Some? &&
                   (old(nettype).Some? ==> nettype == old(nettype)) &&
                   (old(nettype).None? ==>
                      var s := GrownShape(tb.rows, old(N), old(T));
                      DetectNettype(tb.rows, tb.weighted, s.0, s.1) == Ok(nettype.value)) &&
                   rows == InitRows(Settled(tb.rows, nettype.value), diagonal, given) &&
                   (|tb.rows| == 0 ==> N == x.a && T == Depth(x) && netshape == (0, 0)) &&
                   (|tb.rows| > 0 ==>
                      netshape == GrownShape(Settled(tb.rows, nettype.value), x.a, Depth(x)) &&
                      N == netshape.0 && T == netshape.1))
      ensures !KeepsSparse(x, forcesparse) ==>
                (x.a != x.b ==> o == Fail(NotSquare)) &&
                (x.a == x.b ==>
                   o == Pass && !sparse &&
                   dense == (if diagonal then AsGraphlet(x) else WithDiagonal(AsGraphlet(x), 0.0)) &&
                   nettype == Some(GenNettype(AsGraphlet(x), x.a, Depth(x))) &&
                   N == x.a && T == Depth(x) &&
                   netshape == (if x.a == 0 then (0, 0) else (x.a, Depth(x))))
      ensures o == Pass ==> nettype.Some?
      ensures o == Pass && sparse ==> Covers(rows, netshape.0, netshape.1)
      ensures o == Pass && sparse && !diagonal ==> forall e :: e in rows ==> e.i != e.j
      ensures o == Pass && sparse && given.Some? && !given.value.directed ==> KeysDistinct(rows, UndirectedKey)
    {
      // network_from_array's two branches, each followed by the end of __init__
      if KeepsSparse(x, forcesparse) {
        o := InitFromTable(ImportTable(x), x.a, Depth(x), given);
      } else {
        o := InitFromDense(x, given);
      }
    }

    /** The sparse branch of network_from_array followed by the end of
        __init__. */
    method InitFromTable(tb: Table, n: nat, t: nat, given: Option<NetType>) returns (o: Outcome)
      requires sparse
      modifies this`rows, this`weighted, this`dense, this`N, this`T, this`netshape, this`nettype
      ensures o.Fail? <==> old(nettype).None? && |tb.rows| == 0
      ensures o.Fail? ==> o == Fail(NoNettype)
      ensures o == Pass ==> sparse && weighted == tb.weighted && nettype.Some?
      ensures o == Pass && old(nettype).Some? ==> nettype == old(nettype)
      ensures o == Pass && old(nettype).None? ==>
                var s := GrownShape(tb.rows, old(N), old(T));
                DetectNettype(tb.rows, tb.weighted, s.0, s.1) == Ok(nettype.value)
      ensures o == Pass ==> rows == InitRows(Settled(tb.rows, nettype.value), diagonal, given)
      ensures o == Pass && |tb.rows| == 0 ==> N == n && T == t && netshape == (0, 0)
      ensures o == Pass && |tb.rows| > 0 ==>
                netshape == GrownShape(Settled(tb.rows, nettype.value), n, t) && N == netshape.0 && T == netshape.1
      ensures o == Pass ==> Covers(rows, netshape.0, netshape.1)
      ensures o == Pass && !diagonal ==> forall e :: e in rows ==> e.i != e.j
      ensures o == Pass && given.Some? && !given.value.directed ==> KeysDistinct(rows, UndirectedKey)
    {
      o := ImportRows(tb, n, t);
      if o.Fail? {
        return;
      }
      if |tb.rows| > 0 {
        SettledShape(tb.rows, nettype.value, n, t);
      }
      FinishInit(given);
    }

    /** The dense branch of network_from_array followed by the end of
        __init__. */
    method InitFromDense(x: ArrayInput, given: Option<NetType>) returns (o: Outcome)
      requires WellShaped(x)
      modifies this`rows, this`dense, this`shape, this`sparse, this`N, this`T, this`netshape, this`nettype
      ensures x.a != x.b ==> o == Fail(NotSquare)
      ensures x.a == x.b ==> o == Pass && !sparse && nettype == Some(GenNettype(AsGraphlet(x), x.a, Depth(x)))
      ensures x.a == x.b ==> dense == (if diagonal then AsGraphlet(x) else WithDiagonal(AsGraphlet(x), 0.0))
      ensures x.a == x.b ==>
                N == x.a && T == Depth(x) && netshape == (if x.a == 0 then (0, 0) else (x.a, Depth(x)))
    {
      o := ImportDense(x);
      if o.Fail? {
        return;
      }
      FinishInit(given);
    }
  }

  function OrZero(v: Option<int>): int
  {
    if v.Some? then v.value else 0
  }

  /** What __init__ builds from a non-empty edge list es (with a weight
      column when w): a sparse network whose table is es settled by its
      nettype, then cleaned as at the end of __init__; the nettype is the
      given one or the one detected from es; the shape is the smallest that
      holds es and the given N and T. An empty list is an error. */
  ghost predicate EdgelistImported(r: Result<TemporalNetwork>, n: Option<int>, t: Option<int>, nt: Option<NetType>,
                                   diagonal: bool, es: seq<Edge>, w: bool)
    reads if r.Ok? then {r.value} else {}
  {
    (|es| == 0 ==> r == Err(IndexOutOfRange)) &&
    (|es| > 0 ==>
       r.Ok? && r.value.sparse && r.value.weighted == w && r.value.nettype.Some? &&
       (nt.Some? ==> r.value.nettype == nt) &&
       (nt.None? ==>
          var s := GrownShape(es, OrZero(n), OrZero(t));
          DetectNettype(es, w, s.0, s.1) == Ok(r.value.nettype.value)) &&
       r.value.rows == InitRows(Settled(es, r.value.nettype.value), diagonal, nt) &&
       r.value.netshape == GrownShape(es, OrZero(n), OrZero(t)) &&
       r.value.N == r.value.netshape.0 && r.value.T == r.value.netshape.1)
  }

  /** What __init__ builds from an array x. Kept sparse: the table of x
      settled by its nettype and cleaned as at the end of __init__, the
      nettype given or detected from that table (an error when neither
      is possible). Kept dense: the array, its diagonal zeroed unless kept,
      with the nettype detected from it; a non-square array is an error. */
  ghost predicate ArrayImported(r: Result<TemporalNetwork>, n: Option<int>, t: Option<int>, nt: Option<NetType>,
                                diagonal: bool, x: ArrayInput, forcesparse: bool)
    requires WellShaped(x)
    reads if r.Ok? then {r.value} else {}
  {
    (KeepsSparse(x, forcesparse) ==>
       var tb := ImportTable(x);
       (r.Err? <==> nt.None? && |tb.rows| == 0) &&
       (r.Err? ==> r == Err(NoNettype)) &&
       (r.Ok? ==>
          r.value.sparse && r.value.weighted == tb.weighted && r.value.nettype.Some? &&
          (nt.Some? ==> r.value.nettype == nt) &&
          (nt.None? ==>
             var s := GrownShape(tb.rows, OrZero(n), OrZero(t));
             DetectNettype(tb.rows, tb.weighted, s.0, s.1) == Ok(r.value.nettype.value)) &&
          r.value.rows == InitRows(Settled(tb.rows, r.value.nettype.value), diagonal, nt) &&
          (|tb.rows| == 0 ==> r.value.N == x.a && r.value.T == Depth(x) && r.value.netshape == (0, 0)) &&
          (|tb.rows| > 0 ==>
             r.value.netshape == GrownShape(Settled(tb.rows, r.value.nettype.value), x.a, Depth(x)) &&
             r.value.N == r.value.netshape.0 && r.value.T == r.value.netshape.1))) &&
    (!KeepsSparse(x, forcesparse) ==>
       (x.a != x.b ==> r == Err(NotSquare)) &&
       (x.a == x.b ==>
          r.Ok? && !r.value.sparse &&
          r.value.dense == (if diagonal then AsGraphlet(x) else WithDiagonal(AsGraphlet(x), 0.0)) &&
          r.value.nettype == Some(GenNettype(AsGraphlet(x), x.a, Depth(x))) &&
          r.value.N == x.a && r.value.T == Depth(x) &&
          r.value.netshape == (if x.a == 0 then (0, 0) else (x.a, Depth(x)))))
  }

  /** A sparse network whose rows lie inside its shape converts to an
      array once its nettype is known. */
  lemma ToArrayDefined(net: TemporalNetwork)
    requires net.sparse && net.nettype.Some? && Covers(net.rows, net.netshape.0, net.netshape.1)
    ensures net.ToArray().Ok?
  {
    if |net.rows| > 0 {
      var r := net.rows[0];
      DfToArrayEntries(net.rows, net.weighted, net.netshape.0, net.netshape.1, net.nettype.value, r.i, r.j, r.t);
    }
  }
}
