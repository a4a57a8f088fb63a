# teneto core, modelled in Dafny

teneto is a Python package for temporal network analysis. This project models
four parts of it in Dafny and proves properties of the model.

- **Connectivity derivation** (`teneto/derive/derive.py`).
  - `derive` checks and dispatches the `method` parameter: five named methods with their aliases, or a user weight matrix.
  - It turns `node,time` data into `time,node` data.
  - It builds a weight matrix of one of these kinds:
    - jackknife (leave-one-out);
    - sliding window, with or without a taper;
    - inverse-distance between time points;
    - temporal-derivative coupling.
  - It stacks one weighted correlation per weight row into a node × node × window tensor.
  - It negates the jackknife result.
- **Representation conversions** (`teneto/utils/utils.py`).
  - Dense graphlet to contact list and back (`graphlet2contact`, `contact2graphlet`).
  - Table to array (`df_to_array`) and diagonal setting.
  - Network-type detection and magnitude binarisation.
  - Community re-indexing and duplicate-contact counting.
  - Supra-adjacency index shifting, undirected de-duplication, and the input-shape checks.
- **The `TemporalNetwork` container** (`teneto/classes/network.py`).
  - A class whose fields are the edge table (`rows`, the pandas frame), `weighted` (the frame has a weight column), `dense`, `shape`, `sparse`, `N`, `T`, `netshape`, `nettype` and `diagonal`.
  - Its methods import from an array or an edge list, compute the shape, set the network type, drop the diagonal, drop undirected duplicates, and add and drop edges.
- **Slice-graph helpers** (`slice_graph.py`): `pascal_row` as a loop proved to produce binomial coefficients, `make_bezier`'s coefficient row, and `edgeListFromMatrix`'s supra-node flattening.

Values are Dafny `real`. A graphlet is a `seq<seq<seq<real>>>` indexed
`G[i][j][t]`. Every Python exception is modelled as an `Err`/`Fail` value naming the
condition. The foreign numerical steps are parameters of the model:
- the weighted Pearson correlation (`corr`);
- the scipy taper density (`density`);
- the distance function (`dist`);
- the standard deviation (`sd`).

File layout: `wrappers.dfy` (Result/Outcome/Error), `seqs.dfy` (sums,
filters, first-occurrence de-duplication), `grid.dfy` (graphlets, numpy
fancy assignment, row-major enumeration, supra indices), `derive.dfy`,
`contacts.dfy` and `utils.dfy` (utils.py), `network.dfy`, `slice_graph.dfy`.

Three facts about the code shape the model:
- **Distance weights.** `weightfun_spatial_distance` computes distances between rows of the time × node data, which are time points (derive.py:225-227), so the distance matrix is T × T.
- **No threshold.** `network_from_array` keeps exactly the nonzero entries of the array (network.py:195-204); there is no threshold.
- **Sparsification rule.** A sparse frame is kept when `forcesparse` is set or when more than 75% of the entries are zero (network.py:195). In terms of counts: `a*b*c > 4 * nonzeros`.

## Model

| member | source | states |
|---|---|---|
| Derive.ParseMethod | teneto/derive/derive.py:131-151 | each method string is accepted exactly for its listed aliases, and any other string is rejected with UnknownMethod |
| Derive.ParseMethodName | teneto/derive/derive.py:131-151 | the documented name of every method parses back to that method |
| Derive.JackknifeWeights | teneto/derive/derive.py:186-190 | the method that fills ones and then zeroes the diagonal builds exactly the leave-one-out matrix |
| Derive.JackknifeRows | teneto/derive/derive.py:186-190 | the jackknife matrix is T×T, an entry is 0 iff it is on the diagonal, and every row sums to T−1 |
| Derive.SumLeaveOneOut | teneto/derive/derive.py:188-189 | a row of ones with a single zero sums to its length minus one |
| Derive.RollNoWrap | teneto/derive/derive.py:197-198 | rolling a zero-padded window by s ≤ T−k moves it to columns s..s+k−1 with no wrap-around |
| Derive.WindowBase | teneto/derive/derive.py:195-196 | the zero vector with the first k slots assigned holds the taper there and 0 elsewhere |
| Derive.RollRows | teneto/derive/derive.py:197-198 | row s of the stacked rotations is the base vector rolled by s |
| Derive.WindowWeights | teneto/derive/derive.py:195-198 | the slice-assign-and-roll method builds the window matrix |
| Derive.SlidingWindowWeights | teneto/derive/derive.py:193-202 | the method returns the sliding-window result, with errors for a missing window size, a negative one, or one larger than T |
| Derive.SlidingWindowRows | teneto/derive/derive.py:195-198 | for 0 ≤ k ≤ T there are exactly T−k+1 rows; row s is 1 exactly at columns s..s+k−1 and sums to k |
| Derive.SumWindow | teneto/derive/derive.py:196-198 | a row that is 1 on a window of k columns and 0 elsewhere sums to k |
| Derive.TaperAbscissa | teneto/derive/derive.py:207 | the abscissa has k points |
| Derive.TaperAbscissaFacts | teneto/derive/derive.py:207 | it starts at −(k−1)/2, steps by 1, and x[i] = −x[k−1−i] |
| Derive.TaperSymmetric | teneto/derive/derive.py:207-210 | a taper from an even density is symmetric about its centre |
| Derive.TaperedSlidingWindowWeights | teneto/derive/derive.py:205-220 | the method returns the tapered result, and on success also the abscissa and the taper for the report |
| Derive.TaperedRows | teneto/derive/derive.py:212-215 | T−k+1 rows; row s holds density(x[c−s]) on columns s..s+k−1 and 0 elsewhere |
| Derive.PairDistances | teneto/derive/derive.py:225-227 | the matrix is square of side T, and entry (n,t) is the distance between data rows n and t |
| Derive.OffDiagMembers | teneto/derive/derive.py:228-231 | the collected off-diagonal values are exactly the entries with r ≠ c (the values nanmin/nanmax range over) |
| Derive.Extremes | teneto/derive/derive.py:230-231 | the pair bounds every off-diagonal inverse distance and both ends are attained |
| Derive.DistanceWeightsRange | teneto/derive/derive.py:228-232 | one time point gives [[1]]; otherwise, on success, the diagonal is exactly 1 and every entry lies in [0,1] |
| Derive.DistanceWeightsExtremes | teneto/derive/derive.py:230-232 | when the inverse distances are not all equal, some off-diagonal weight is 0 and some is 1 |
| Derive.DistanceWeightsMonotone | teneto/derive/derive.py:229-231 | a larger distance never gets a larger weight |
| Derive.Diff | teneto/derive/derive.py:242 | the difference series has T−1 rows with the same number of columns |
| Derive.DiffTelescopes | teneto/derive/derive.py:242 | for every node the first differences telescope: they sum to the last value minus the first |
| Derive.Coupling | teneto/derive/derive.py:246-249 | the coupling tensor has shape N×N×(T−1) |
| Derive.CouplingSymmetric | teneto/derive/derive.py:246-249 | coupling[i][j] = coupling[j][i] |
| Derive.WindowMean | teneto/derive/derive.py:251-255 | the windowed mean has length L−k+1 |
| Derive.WindowMeanOne | teneto/derive/derive.py:251-255 | a window of width 1 leaves the series unchanged |
| Derive.WindowMeanConstant | teneto/derive/derive.py:251-255 | the mean of a constant series is that constant |
| Derive.TemporalDerivativeSpec | teneto/derive/derive.py:236-262 | a result exists only when a window size k is given with 1 ≤ k ≤ D+1, where D, the number of first differences, is T−1 for T ≥ 1 time points and 0 for none (so k ≤ T when T ≥ 1, and k = 1 when T = 0); it then has shape N×N×(D−k+1) |
| Derive.TemporalDerivativeFacts | teneto/derive/derive.py:242-255 | entry t is the mean of coupling[t..t+k−1] of the normalised differences, and the output is symmetric in i and j |
| Derive.TemporalDerivativeStill | teneto/derive/derive.py:244 | a node with zero standard deviation makes the result NonFinite |
| Derive.Correlate | teneto/derive/derive.py:164-170 | one correlation matrix per weight row, stacked along the last axis |
| Derive.Stacked | teneto/derive/derive.py:167-170 | the stack-and-transpose fails with Empty exactly when there is no weight row; otherwise it is the N×N×rows stack of correlations |
| Derive.Negate | teneto/derive/derive.py:173-174 | same shape, every entry negated |
| Derive.Oriented | teneto/derive/derive.py:116-129 | the canonicalised data is a rectangular time × node matrix |
| Derive.Derive | teneto/derive/derive.py:14-183 | the imperative derive (defaults, transpose, dispatch, correlation, negation) returns exactly DeriveSpec, the function the lemmas below are about |
| Derive.DeriveDispatch | teneto/derive/derive.py:131-151 | an unknown string gives UnknownMethod; every alias derives the same result as the method's documented name |
| Derive.DeriveUserWeights | teneto/derive/derive.py:152-170 | a non-square user matrix gives NotSquare; a side other than T gives SizeMismatch; a 0×0 matrix for zero time points gives Empty (the empty stack cannot be transposed); the result is Ok exactly for a square matrix of side T ≥ 1, and is then the correlation under those weights |
| Derive.DeriveJackknifeNegated | teneto/derive/derive.py:131-174 | for each named method the result is the correlation under that method's weights (jackknife, sliding window, tapered window, distance), negated only for jackknife; jackknife with zero time points gives Empty; the temporal derivative is returned as computed |
| Derive.DeriveOrientation | teneto/derive/derive.py:128-129 | `node,time` data derives the same result as its transpose given as `time,node` |
| Contacts.NetTypeRoundTrip | teneto/utils/utils.py:174-176 | every network type's name parses back to that type |
| Contacts.NetTypeNames | teneto/utils/utils.py:174-176 | a string parses iff it is bu, bd, wu or wd; then its name is the string, the first letter w means weighted and the second d means directed |
| Contacts.GenNettype | teneto/utils/utils.py:449-479 | the detected type is binary iff every entry is 0 or 1, and undirected iff the graphlet is symmetric |
| Contacts.Snapshot | teneto/utils/utils.py:444-446 | the value view of the array has its shape and entries |
| Contacts.SetDiagonal | teneto/utils/utils.py:424-446 | every (i,i,t) becomes val and every off-diagonal entry is unchanged |
| Contacts.TimeOrderFacts | teneto/utils/utils.py:121-124 | the enumeration covers exactly the in-range positions and is ordered by time |
| Contacts.ContactsOfFacts | teneto/utils/utils.py:114-124 | the contacts are exactly the nonzero off-diagonal entries (only i<j when undirected), with non-decreasing t and no repeats |
| Contacts.Graphlet2ContactFacts | teneto/utils/utils.py:18-139 | non-square input is rejected; an undirected type with no time slice gives Empty (the empty stack of triangles cannot be transposed); otherwise netshape is the tuple (n,n,T), the contacts are as above, and for a weighted type values[k] is the entry at contact k |
| Contacts.CheckContactDict | teneto/utils/utils.py:167-189 | the checks pass iff dimord is `node,node,time`, nettype is one of the four, netshape is a 3-tuple, values are present for a weighted type, and contacts and timetype are present; otherwise the error names the first failing key in the source's order (missing, or a bad value; a list netshape is a bad value); on success the contacts, nettype, netshape and values are those read |
| Contacts.Place | teneto/utils/utils.py:194-208 | on success the graphlet has the declared shape and every contact (and its mirror, when undirected) fits in it |
| Contacts.Contact2Graphlet | teneto/utils/utils.py:142-210 | on success the output has the declared three-dimensional netshape |
| Contacts.Contact2GraphletEntries | teneto/utils/utils.py:194-208 | each entry is the diagonal value when one is set, else the last value written there (mirrored when undirected), else 0 |
| Contacts.Contact2GraphletBinary | teneto/utils/utils.py:194-208 | for a binary type every entry off the diagonal is 0 or 1; a diagonal entry holds the nonzero diagonal value, so with a diagonal of 0 or 1 every entry is 0 or 1 |
| Contacts.Contact2GraphletContact | teneto/utils/utils.py:194-208 | at each off-diagonal contact the output holds 1 or its value, and so does the mirrored position for an undirected network |
| Contacts.EmptyContactsCrash | teneto/utils/utils.py:194-200 | as written, an empty contact list raises; with contacts the two versions agree; the corrected version gives all zeros |
| Contacts.EmptyContactsExample | teneto/utils/utils.py:194-200 | a concrete empty binary contact dictionary that the code as written rejects |
| Contacts.RoundTrip | teneto/utils/utils.py:115-139 | whenever graphlet2contact succeeds and the type is directed or G is symmetric, the corrected Contact2Graphlet (Findings row 1; the source's contact2graphlet raises when there are no contacts) applied to its output gives G off the diagonal (0/1 for binary types) and the recorded diagonal value on it |
| Contacts.RoundTripAuto | teneto/utils/utils.py:93-139 | with the nettype detected automatically and at least one time slice, graphlet2contact succeeds and the corrected Contact2Graphlet restores G in the same sense; with no time slice the detected type is undirected and graphlet2contact gives Empty |
| Contacts.BinarizeMagnitude | teneto/utils/utils.py:337-378 | an array that is not square in its node axes is refused with a `ValueError` (the graphlet test of `checkInput`, teneto/utils/utils.py:508-524, reached through `process_input`), and exactly such arrays are refused; a square graphlet yields an output of the input's shape |
| Contacts.BinarizeMagnitudeFacts | teneto/utils/utils.py:360-368 | on a square graphlet the call succeeds, and the output is binary with a zero diagonal; an entry is 1 iff it exceeds, falls below, or differs from the level for `pos`, `neg` or `both` |
| Contacts.BinarizeMagnitudeMonotone | teneto/utils/utils.py:362-363 | raising the level never turns a 0 into a 1 |
| Contacts.CountsSum | teneto/utils/utils.py:708-724 | the counts of the distinct contacts sum to the number of contacts |
| Contacts.CountContacts | teneto/utils/utils.py:708-714 | the ordered dictionary loop keeps distinct contacts in first-occurrence order, each mapped to its number of occurrences |
| Contacts.MultipleContactsGetValues | teneto/utils/utils.py:689-724 | a missing `contacts` key is an error; otherwise contacts become the distinct ones and values their counts |
| Contacts.MultipleContactsFacts | teneto/utils/utils.py:708-724 | the returned contacts are distinct, are exactly the input's contacts, each has a count of at least 1, and the counts sum to the input length |
| Utils.DfToArray | teneto/utils/utils.py:727-760 | on success the array is N×N×T |
| Utils.DfToArrayEntries | teneto/utils/utils.py:744-760 | rows in range always succeed; each entry is the last row value written there (mirrored when undirected) or 0; an empty table gives all zeros |
| Utils.DfToArrayRow | teneto/utils/utils.py:749-760 | with distinct positions each row's cell holds 1 (3 columns) or its weight (4 columns), and its mirror does too when undirected |
| Utils.DfToArrayUnlisted | teneto/utils/utils.py:744-760 | a position no row (or mirrored row) names stays 0 |
| Utils.DfToArrayBinarySymmetric | teneto/utils/utils.py:756-760 | a binary undirected table gives a symmetric array |
| Utils.DropIJDuplicates | teneto/utils/utils.py:1074-1080 | the loop keeps the first row of each unordered (i,j) and t |
| Utils.DropIJDuplicatesFacts | teneto/utils/utils.py:1074-1080 | kept rows have distinct undirected keys, every key of the input survives as the first row with that key, and order is kept |
| Utils.SupraAdjacency | teneto/utils/utils.py:1029-1040 | one edge per row plus N·(T−1) interslice edges |
| Utils.SupraAdjacencyEdges | teneto/utils/utils.py:1029-1034 | row (i,j,t) becomes (i+N·t, j+N·t) with its weight, or 1 when there is no weight column |
| Utils.SupraAdjacencyInterslice | teneto/utils/utils.py:1036-1039 | node n at slice t < T−1 gets the edge k → k+N with the interslice weight |
| Utils.Unique | teneto/utils/utils.py:682 | the sorted distinct ids are strictly increasing and are exactly the input's ids |
| Utils.CleanCommunityIndexes | teneto/utils/utils.py:655-686 | the re-indexing loop gives each entry the rank of its id among the distinct ids |
| Utils.ReindexedFacts | teneto/utils/utils.py:676-682 | for a flat sequence of ids the length is kept; outputs lie in 0..m−1 and all are used; equal ids map to equal outputs and order is kept, both ways |
| Utils.FlattenAt | teneto/utils/utils.py:678-679 | entry (p,q) of a rectangular id array with w columns is element p·w+q of its row-major flattening |
| Utils.CleanCommunityGrid | teneto/utils/utils.py:675-685 | a two-dimensional id array is flattened, re-indexed and reshaped: the shape is kept, the distinct ids are exactly the array's, and each entry becomes the rank of its id among them |
| Utils.CheckInputFacts | teneto/utils/utils.py:482-526 | G exactly for square 3-D arrays; C exactly for dictionaries with the four valid keys; M only when conMat is set and the array is square; never U when raising is asked for |
| Utils.CheckTemporalNetworkInputFacts | teneto/utils/utils.py:1044-1071 | a data frame passes iff it has the i, j and t columns; edge lists pass iff every row has length 3 or every row has length 4; arrays pass iff 2-D or 3-D; an unknown datatype fails |
| Utils.CheckDfColumnsExample | teneto/utils/utils.py:1065-1069 | a frame with only a t column passes the check as written and fails the corrected one |
| Utils.CheckDistanceFunctionInputFacts | teneto/utils/utils.py:763-792 | a named function is kept; `default` becomes euclidean for weighted types and hamming for binary ones; `default` with an empty nettype string is an error (the first letter cannot be read); applying it twice changes nothing |
| Network.NodeBound | teneto/classes/network.py:297 | max(i,j)+1 bounds every row and is reached by one |
| Network.TimeBound | teneto/classes/network.py:298 | max t + 1 bounds every row and is reached by one |
| Network.DetectNettype | teneto/classes/network.py:159-178 | the detected type keeps the frame's weighting |
| Network.DetectNettypeFacts | teneto/classes/network.py:159-178 | detection succeeds; the type is undirected iff the array built from the rows is symmetric |
| Network.SettledFacts | teneto/classes/network.py:214-221 | directed rows are unchanged; undirected rows keep one row per unordered key, in order, drawn from the input |
| Network.DropSelfFacts | teneto/classes/network.py:281-284 | dropping the diagonal keeps exactly the rows with i ≠ j, in order |
| Network.WithoutFacts | teneto/classes/network.py:372-377 | after dropping edges a row survives iff it was present and its (i,j,t) is not among the dropped ones; order is kept |
| Network.WithoutStep | teneto/classes/network.py:372-377 | dropping edges one at a time equals dropping them all |
| Network.AsGraphlet | teneto/classes/network.py:192-193 | a 2-D array becomes a single time slice, and a 3-D one is used as it is |
| Network.RowsAtFacts | teneto/classes/network.py:196-204 | rows read at the nonzero positions are in range, nonzero, carry the array value when weighted, cover every nonzero entry, and come in row-major order |
| Network.ArrayTableFacts | teneto/classes/network.py:196-204 | the table is unweighted iff the array holds exactly the values 0 and 1 (both present); its rows are exactly the nonzero entries in row-major order, with the value when weighted |
| Network.InitCheck | teneto/classes/network.py:49-87 | the constructor arguments pass iff the nettype is empty or one of the four, at most one source is given, and the timetype is empty or valid; a bad nettype is reported as such |
| Network.TemporalNetwork.constructor | teneto/classes/network.py:75-145 | a new network is sparse with an empty table, N and T from the arguments or 0, and the given nettype and diagonal flag |
| Network.TemporalNetwork.CalcNetshape | teneto/classes/network.py:288-307 | dense: netshape is (shape[0], shape[-1]); empty: (0,0); sparse: N and T grow to the largest index + 1 and never shrink, and every row fits |
| Network.TemporalNetwork.SetNettype | teneto/classes/network.py:159-178 | a set type or an empty table is left alone; otherwise the type is detected from the rows |
| Network.TemporalNetwork.DropDuplicateIJ | teneto/classes/network.py:270-274 | the table keeps the first row of each unordered (i,j) and t |
| Network.GrownShape | teneto/classes/network.py:296-307 | the shape _calc_netshape computes for a non-empty table covers every row and never shrinks N or T |
| Network.GrownShapeCovered | teneto/classes/network.py:296-307 | a shape that already holds every row of a non-empty table is kept as it is |
| Network.SettledShape | teneto/classes/network.py:214-221 | settling a non-empty table by its nettype leaves it non-empty, and recomputing the shape after settling keeps the shape computed before |
| Network.InitRowsFacts | teneto/classes/network.py:147-153 | the table left by the end of __init__ holds only rows it was given, has no self-contact unless the diagonal is kept, and has distinct undirected keys when an undirected nettype was given |
| Network.TemporalNetwork.UpdateNetwork | teneto/classes/network.py:214-221 | it fails exactly when no type is set and the table is empty, and then changes no row; otherwise it keeps a set type or detects one at the grown shape, and settles the rows by it; a non-empty table grows N, T and netshape to cover the rows, an empty one leaves N and T and gives netshape (0,0) |
| Network.TemporalNetwork.DropDiagonal | teneto/classes/network.py:277-286 | sparse: rows with i = j are removed and the others keep their order; dense: the diagonal is zeroed |
| Network.TemporalNetwork.NetworkFromArray | teneto/classes/network.py:180-212 | it stays sparse iff forced or more than 75% zero, with the rows of the array's table settled by the type, a given type kept and a missing one detected from the table (failing only when there is neither a type nor a row); otherwise it keeps the dense array and detects its type, failing when it is not square; on success N = shape[0], T = shape[-1] and netshape = (N, T) |
| Network.TemporalNetwork.ImportRows | teneto/classes/network.py:196-205 | the table becomes the network and is updated as by _update_network; on success N, T and netshape are the array's first and last axes |
| Network.TemporalNetwork.ImportDense | teneto/classes/network.py:206-212 | the array is kept dense with its shape, its type is detected when it is square, and a non-square array is an error |
| Network.TemporalNetwork.NetworkFromEdgelist | teneto/classes/network.py:237-253 | an empty list is an error; otherwise the weighting is taken from the row length, the type is set, duplicates are removed when undirected, and the shape covers the rows |
| Network.TemporalNetwork.AddEdge | teneto/classes/network.py:309-346 | a dense network or an empty list is an error and changes nothing; otherwise the rows are the old rows and the edges appended, settled by the kept or detected nettype, and N, T and netshape are grown to cover them |
| Network.TemporalNetwork.DropEdge | teneto/classes/network.py:348-377 | every row matching a dropped (i,j,t) is removed and nothing else is; the rest is settled by the kept or detected nettype; an emptied table gives netshape (0,0) with N and T kept, otherwise N, T and netshape cover the remaining rows; an empty list or a dense network changes nothing |
| Network.TemporalNetwork.ToArray | teneto/classes/network.py:465-466 | a network whose nettype was never set gives NoNettype; an empty table gives zeros; a dense network converts only when it has no nodes; a result is netshape[0]×netshape[0]×netshape[1] |
| Network.TemporalNetwork.CleanRows | teneto/classes/network.py:149-153 | a sparse table becomes its rows without self-contacts (unless the diagonal is kept), de-duplicated by undirected key when an undirected nettype was given; a dense array has its diagonal zeroed unless kept |
| Network.TemporalNetwork.FinishInit | teneto/classes/network.py:147-153 | a sparse table becomes exactly the cleaned rows above, with N, T and netshape recomputed from the table before cleaning ((0,0) when empty) and covering the rows; a dense network keeps its rows, its netshape is (shape[0], shape[-1]) and its diagonal is zeroed unless kept |
| Network.TemporalNetwork.InitFromEdgelist | teneto/classes/network.py:131-153 | an empty list is an error; otherwise the rows are the edges settled by the given or detected type and cleaned as at the end of __init__, with N, T and netshape grown from the constructor's N and T to cover the edges |
| Network.TemporalNetwork.InitFromArray | teneto/classes/network.py:133-153 | a kept-sparse array gives its table settled and cleaned, with netshape grown from the array's axes ((0,0) when the table is empty) and a given type kept or a missing one detected; a dense array gives the array, its diagonal zeroed unless kept, its detected type and (N, T) from its axes; a non-square dense array or a typeless empty table is an error |
| Network.TemporalNetwork.InitFromTable | teneto/classes/network.py:195-205 | the sparse branch of the array import followed by the end of __init__, with the rows and shape as above |
| Network.TemporalNetwork.InitFromDense | teneto/classes/network.py:206-212 | the dense branch of the array import followed by the end of __init__, with the array, type and shape as above |
| Network.TemporalNetwork.CreateFromEdgelist | teneto/classes/network.py:75-153 | a fresh network built from an edge list holds what InitFromEdgelist states, starting from the constructor's N, T and nettype |
| Network.TemporalNetwork.CreateFromArray | teneto/classes/network.py:75-153 | a fresh network built from an array holds what InitFromArray states, starting from the constructor's N, T and nettype |
| Network.TemporalNetwork.Create | teneto/classes/network.py:10-157 | invalid arguments are reported; with no source the network is sparse and empty, with netshape (0,0), the given type and N and T as given or 0; with an edge list or an array its rows, dense array, type, N, T and netshape are those of the import as stated above; sparse rows fit the shape, have no self-loops unless diagonal, and are de-duplicated when undirected |
| Network.ToArrayDefined | teneto/classes/network.py:465-466 | a sparse network with a type whose rows fit its shape always converts to an array |
| SliceGraph.BinomialEnds | slice_graph.py:125-137 | C(n,0) = C(n,n) = 1 and C(n,1) = n |
| SliceGraph.BinomialSymmetric | slice_graph.py:133-137 | C(n,k) = C(n,n−k) |
| SliceGraph.NextBinomial | slice_graph.py:127-132 | the loop step prev·(n−d+1)/d yields the next binomial coefficient |
| SliceGraph.PascalRow | slice_graph.py:123-138 | for n ≥ 0, n+1 entries with entry k = C(n,k); for negative n, [1] or [1,1] by parity |
| SliceGraph.MirrorHalf | slice_graph.py:133-137 | mirroring the first half (dropping the middle for even n) completes the row |
| SliceGraph.PascalRowShape | slice_graph.py:125-137 | the row starts and ends with 1 and is symmetric |
| SliceGraph.MakeBezierCoefficients | slice_graph.py:107-110 | one coefficient per control point, the binomial row of the point count minus one |
| SliceGraph.AboveFacts | slice_graph.py:75-76 | the selected positions are exactly those above the threshold, in row-major order |
| SliceGraph.EdgeListFromMatrix | slice_graph.py:72-78 | one pair per entry above the threshold |
| SliceGraph.EdgeListSound | slice_graph.py:75-77 | each pair is (i+t·N, j+t·N) for an entry A[i][j][t] above the threshold |
| SliceGraph.EdgeListComplete | slice_graph.py:75-77 | every entry above the threshold yields its pair |
| SliceGraph.EdgeListDistinct | slice_graph.py:75-77 | no pair is emitted twice |

## Left out

- The weighted Pearson correlation (statsmodels `DescrStatsW`), the scipy taper density built by `eval`, the scipy distance functions and `np.std` are parameters `corr`, `density`, `dist` and `sd`, because they are foreign numerical code.
- `postpro_pipeline`, `gen_report` and the `report` dictionary are not modelled: post-processing and report files are outside the model.
- Infinity and NaN are not representable with `real`. The model reports them as errors instead:
  - Derive.DistanceWeights: a zero off-diagonal distance (an infinite weight in the source) and all-equal inverse distances (0/0 in the source) give Err(NonFinite), and zero time points give Err(Empty).
  - Derive.TemporalDerivativeSpec: a node with zero standard deviation gives Err(NonFinite) where the source yields NaN, and a window size of 0 (a mean over nothing) gives Err(BadWindow).
- Derive.TaperedSlidingWindowSpec: a negative window size gives Err(BadWindow). numpy would accept some negative sizes with slicing semantics that are not modelled.
- Contacts.GenNettype: uses exact symmetry instead of `np.allclose`, because tolerance comparisons are floating-point behaviour.
- Contacts.Graphlet2Contact: takes a three-dimensional graphlet only. The source's `np.atleast_3d` turns a square 2-D input into a single time slice (utils.py:74-75); that path is not modelled.
- Contacts.Graphlet2Contact: returns a new contact dictionary and leaves its argument alone. The source's `set_diagonal(G, 0)` (utils.py:113) fills the diagonal of the caller's array in place; that aliasing is not modelled.
- Contacts.MultipleContactsGetValues: returns a new dictionary. The source assigns `C_out = C` and overwrites `contacts` and `values` in the caller's dictionary (utils.py:720-723); that aliasing is not modelled.
- Utils.ReindexedFacts: is stated for a flat sequence of ids. Utils.CleanCommunityGrid covers two-dimensional arrays through flatten and reshape; arrays of three or more dimensions (utils.py:679-685) are not modelled.
- Contacts.Graphlet2Contact: does not model the mutation of the caller's `params` dictionary, or the `t0`, `Fs`, `timeunit`, `nodelabels` and `timelabels` metadata beyond the label-length check. Contacts are listed in time-major order. The source orders them by an unstable argsort on t, so the only promise kept is non-decreasing t.
- Contacts.BinarizeMagnitude: works on arrays only; a non-square array is refused as `checkInput` refuses it. The `process_input` path for contact dictionaries and TemporalNetwork objects is dynamic dispatch that is not part of this model.
- numpy fancy assignment with repeated positions is modelled as last write wins (`Grid.WriteAll`).
- Utils.CheckInput: models the Python kinds the function distinguishes (ndarray by shape, dict by keys, DataFrame by columns, other objects). Arbitrary Python objects are not modelled.
- `process_input`, `get_network_when`, `binarize_rdp`, `binarize_percent` and `create_traj_ranges` are not part of this model. They are dynamic dispatch, calls to unseen code, or float-range logic.
- TemporalNetwork:
  - `network_from_df` and `network_from_dict`, HDF5 storage, `plot`, `calc_networkmeasure` and `generatenetwork` are not modelled, and neither are the labels, description, start time and time unit fields.
  - The `isinstance(N, int)` checks are enforced by the model's types.
- TemporalNetwork.NetworkFromArray: requires a well-shaped 2-D or 3-D array and a network that is still sparse. Re-importing into a dense network is not modelled.
- Network.TemporalNetwork.NetworkFromArray: a dense non-square array always gives Fail(NotSquare). In the source, gen_nettype compares G with its transpose by `np.allclose`, which broadcasts: when neither of the first two axes is 1 it raises a broadcasting error, but when one of them is 1 it returns a nettype. That second case is not modelled.
- TemporalNetwork.NetworkFromEdgelist: ragged edge lists and negative indices cannot be expressed, because edges are typed `(nat, nat, nat[, real])` records.
- Network.TemporalNetwork.AddEdge: adding weighted edges to an unweighted table (or the reverse) gives Fail(NonFinite). The source instead leaves NaN weights in the concatenated frame.
- Network.TemporalNetwork.DropEdge: the dense-network error is modelled as Fail(DenseNetwork).
- SliceGraph.PascalRow: computed with exact reals. The source's float divisions can round for large n.
- The Bezier curve evaluation in `make_bezier`, and `bezier_points`, `bezier_circle`, `plot_circle` and `plot_slice`, are trigonometric and plotting code that is not modelled.

## Findings

| source | as written | input that shows it | evidently intended | confidence | as-written member | corrected member |
|---|---|---|---|---|---|---|
| teneto/utils/utils.py:194-200 | `contact2graphlet` indexes the contact array by column; an empty contact list gives a 1-D array and the indexing raises | `contacts = []`, `nettype = 'bu'`, `netshape = (2, 2, 1)` | an empty contact list gives an all-zero graphlet of the declared shape | not executed | Contacts.Contact2GraphletAsWritten, Contacts.EmptyContactsExample | Contacts.Contact2Graphlet, Contacts.EmptyContactsCrash |
| teneto/utils/utils.py:1065-1069 | `('i' and 'j' and 't') not in df` evaluates the conjunction to `'t'`, so only the t column is checked | a data frame with the single column `t` | each of the i, j and t columns is required | not executed | Utils.CheckTemporalNetworkInputAsWritten, Utils.CheckDfColumnsExample | Utils.CheckTemporalNetworkInput, Utils.CheckTemporalNetworkInputFacts |
