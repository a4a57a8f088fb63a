/** Graphlet and contact representations of a temporal network
    (teneto/utils/utils.py): network-type detection, diagonal setting,
    graphlet -> contact -> graphlet conversion, magnitude binarisation and
    the merging of repeated contacts. */
module Contacts {
  import opened Wrappers
  import opened Seqs
  import opened Grid

  // ---------------------------------------------------------------------
  // Network type

  /** 'b'/'w' (binary or weighted) and 'u'/'d' (undirected or directed). */
  datatype NetType = NetType(weighted: bool, directed: bool)

  function NetTypeName(nt: NetType): (s: string)
  {
    (if nt.weighted then "w" else "b") + (if nt.directed then "d" else "u")
  }

  /** The four accepted nettype strings. */
  function ParseNetType(s: string): (r: Option<NetType>)
  {
    if s == "bu" then Some(NetType(false, false))
    else if s == "bd" then Some(NetType(false, true))
    else if s == "wu" then Some(NetType(true, false))
    else if s == "wd" then Some(NetType(true, true))
    else None
  }

  /** Naming a type and parsing the name gives the type back. */
  lemma NetTypeRoundTrip(nt: NetType)
    ensures ParseNetType(NetTypeName(nt)) == Some(nt)
  {
    if nt.weighted {
      if nt.directed { assert NetTypeName(nt) == "wd"; } else { assert NetTypeName(nt) == "wu"; }
    } else {
      if nt.directed { assert NetTypeName(nt) == "bd"; } else { assert NetTypeName(nt) == "bu"; }
    }
  }

  /** Exactly the four names parse; each parses to the type it names, its
      first letter telling weighted from binary and its second directed
      from undirected. */
  lemma NetTypeNames(s: string)
    ensures ParseNetType(s).Some? <==> s in {"bu", "bd", "wu", "wd"}
    ensures ParseNetType(s).Some? ==>
              NetTypeName(ParseNetType(s).value) == s &&
              ParseNetType(s).value.weighted == (s[0] == 'w') &&
              ParseNetType(s).value.directed == (s[1] == 'd')
  {
  }

  /** Every entry is 0 or 1 (G equals G.astype(bool)); the diagonal counts. */
  ghost predicate IsBinary(G: Graphlet)
  {
    forall i, j, t :: 0 <= i < |G| && 0 <= j < |G[i]| && 0 <= t < |G[i][j]| ==>
      G[i][j][t] == 0.0 || G[i][j][t] == 1.0
  }

  /** G[i][j][t] == G[j][i][t] throughout (exact in place of np.allclose). */
  ghost predicate IsSymmetric(G: Graphlet, n: nat, T: nat)
    requires Shaped(G, n, n, T)
  {
    forall i, j, t :: 0 <= i < n && 0 <= j < n && 0 <= t < T ==> G[i][j][t] == G[j][i][t]
  }

  /** gen_nettype: binary when every entry is 0 or 1, undirected when the
      array equals its transpose in the two node axes. */
  function GenNettype(G: Graphlet, n: nat, T: nat): (nt: NetType)
    requires Shaped(G, n, n, T)
    ensures !nt.weighted <==> IsBinary(G)
    ensures !nt.directed <==> IsSymmetric(G, n, T)
  {
    var binary := forall i, j, t :: 0 <= i < n && 0 <= j < n && 0 <= t < T ==>
                    G[i][j][t] == 0.0 || G[i][j][t] == 1.0;
    var symmetric := forall i, j, t :: 0 <= i < n && 0 <= j < n && 0 <= t < T ==>
                       G[i][j][t] == G[j][i][t];
    NetType(!binary, !symmetric)
  }

  // ---------------------------------------------------------------------
  // set_diagonal

  /** The contents of a node x node x time array. */
  function Snapshot(G: array3<real>): (s: Graphlet)
    reads G
    ensures Shaped(s, G.Length0, G.Length1, G.Length2)
    ensures forall i, j, t :: 0 <= i < G.Length0 && 0 <= j < G.Length1 && 0 <= t < G.Length2 ==>
              s[i][j][t] == G[i, j, t]
  {
    seq(G.Length0, i requires 0 <= i < G.Length0 reads G =>
      seq(G.Length1, j requires 0 <= j < G.Length1 reads G =>
        seq(G.Length2, t requires 0 <= t < G.Length2 reads G => G[i, j, t])))
  }

  /** set_diagonal: fill the diagonal of every time slice with val, in place. */
  method SetDiagonal(G: array3<real>, val: real)
    modifies G
    ensures forall i, j, t :: 0 <= i < G.Length0 && 0 <= j < G.Length1 && 0 <= t < G.Length2 ==>
              G[i, j, t] == (if i == j then val else old(G[i, j, t]))
    ensures Snapshot(G) == WithDiagonal(old(Snapshot(G)), val)
  {
    ghost var before := Snapshot(G);
    for t := 0 to G.Length2
      invariant forall i, j, u :: 0 <= i < G.Length0 && 0 <= j < G.Length1 && 0 <= u < G.Length2 ==>
                  G[i, j, u] == (if i == j && u < t then val else before[i][j][u])
    {
      // np.fill_diagonal on the slice G[:, :, t]
      forall i | 0 <= i < G.Length0 && i < G.Length1 {
        G[i, i, t] := val;
      }
    }
    var after, wanted := Snapshot(G), WithDiagonal(before, val);
    forall i | 0 <= i < G.Length0 ensures after[i] == wanted[i] {
      forall j | 0 <= j < G.Length1 ensures after[i][j] == wanted[i][j] {
        assert forall u :: 0 <= u < G.Length2 ==> after[i][j][u] == wanted[i][j][u];
      }
    }
  }

  // ---------------------------------------------------------------------
  // graphlet2contact

  /** A contact (i, j, t). */
  type Contact = (nat, nat, nat)

  /** The 'netshape' entry: a tuple, or a sequence of another Python type
      (a list or an array). */
  datatype Shape = Tuple(dims: seq<nat>) | NotTuple(dims: seq<nat>)

  /** The contact dictionary; a key may be absent. */
  datatype ContactDict = ContactDict(
    contacts: Option<seq<Contact>>,
    values: Option<seq<real>>,
    nettype: Option<string>,
    netshape: Option<Shape>,
    dimord: Option<string>,
    timetype: Option<string>,
    diagonal: Option<real>)

  /** The parameters graphlet2contact reads. */
  datatype ContactParams = ContactParams(
    nettype: Option<string>,           // absent or 'auto': detected
    diagonal: Option<real>,            // 0 when absent
    nodelabels: Option<seq<string>>)

  /** Time-major order: t first, then i, then j. */
  predicate TimeLess(p: Contact, q: Contact)
  {
    Less3((p.2, p.0, p.1), (q.2, q.0, q.1))
  }

  /** Every (i, j, t) of an n x n x T array, in time-major order. */
  function TimeOrder(n: nat, T: nat): (s: seq<Contact>)
  {
    var tr := Triples(T, n, n);
    seq(|tr|, k requires 0 <= k < |tr| => (tr[k].1, tr[k].2, tr[k].0))
  }

  lemma TimeOrderFacts(n: nat, T: nat)
    ensures forall p :: p in TimeOrder(n, T) <==> p.0 < n && p.1 < n && p.2 < T
    ensures SortedBy(TimeOrder(n, T), TimeLess)
  {
    var tr := Triples(T, n, n);
    var s := TimeOrder(n, T);
    TriplesFacts(T, n, n);
    forall p: Contact | p.0 < n && p.1 < n && p.2 < T ensures p in s {
      assert (p.2, p.0, p.1) in tr;
      var k :| 0 <= k < |tr| && tr[k] == (p.2, p.0, p.1);
      assert s[k] == p;
    }
    forall p | p in s ensures p.0 < n && p.1 < n && p.2 < T {
      var k :| 0 <= k < |s| && s[k] == p;
      assert tr[k] in tr;
    }
    forall a, b | 0 <= a < b < |s| ensures TimeLess(s[a], s[b]) {
      assert Less3(tr[a], tr[b]);
    }
  }

  /** The entries graphlet2contact lists: nonzero after the diagonal is
      zeroed, and in the strict upper triangle when undirected. */
  function Kept(G0: Graphlet, nt: NetType): Contact -> bool
  {
    (p: Contact) => At(G0, p.0, p.1, p.2) != 0.0 && (nt.directed || p.0 < p.1)
  }

  /** The nettype graphlet2contact settles on: given, or detected from G. */
  function ResolveNettype(G: Graphlet, n: nat, T: nat, given: Option<string>): (r: Result<NetType>)
    requires Shaped(G, n, n, T)
  {
    if given.None? || given == Some("auto") then Ok(GenNettype(G, n, T))
    else match ParseNetType(given.value)
      case None => Err(BadValue("nettype"))
      case Some(nt) => Ok(nt)
  }

  /** The contacts of G under nettype nt, in time-major order. */
  function ContactsOf(G: Graphlet, n: nat, T: nat, nt: NetType): seq<Contact>
  {
    Filter(TimeOrder(n, T), Kept(WithDiagonal(G, 0.0), nt))
  }

  /** Which entries become contacts, and in what order. */
  lemma ContactsOfFacts(G: Graphlet, n: nat, T: nat, nt: NetType)
    requires Shaped(G, n, n, T)
    ensures ContactsFor(G, n, T, nt, ContactsOf(G, n, T, nt))
    ensures forall p :: p in ContactsOf(G, n, T, nt) <==>
              p.0 < n && p.1 < n && p.2 < T && p.0 != p.1 && G[p.0][p.1][p.2] != 0.0 &&
              (nt.directed || p.0 < p.1)
    ensures forall x, y :: 0 <= x < y < |ContactsOf(G, n, T, nt)| ==>
              ContactsOf(G, n, T, nt)[x].2 <= ContactsOf(G, n, T, nt)[y].2 &&
              ContactsOf(G, n, T, nt)[x] != ContactsOf(G, n, T, nt)[y]
  {
    var G0 := WithDiagonal(G, 0.0);
    var cs := ContactsOf(G, n, T, nt);
    TimeOrderFacts(n, T);
    FilterSorted(TimeOrder(n, T), Kept(G0, nt), TimeLess);
    forall x, y | 0 <= x < y < |cs| ensures cs[x].2 <= cs[y].2 && cs[x] != cs[y] {
      assert TimeLess(cs[x], cs[y]);
    }
  }

  /** The entry of G at each contact. */
  function ValuesAt(G: Graphlet, cs: seq<Contact>): (vs: seq<real>)
    ensures |vs| == |cs|
  {
    seq(|cs|, k requires 0 <= k < |cs| => At(G, cs[k].0, cs[k].1, cs[k].2))
  }

  /** graphlet2contact on a node x node x time array of shape (a, b, T).
      For an undirected type the upper triangles of the slices are stacked
      and transposed; with no slice the stack is an empty list, which the
      transpose rejects. */
  function Graphlet2Contact(G: Graphlet, a: nat, b: nat, T: nat, params: ContactParams): (r: Result<ContactDict>)
    requires Shaped(G, a, b, T)
  {
    if a != b then Err(NotSquare)
    else if params.nodelabels.Some? && |params.nodelabels.value| > 0 && |params.nodelabels.value| != a
    then Err(SizeMismatch)
    else match ResolveNettype(G, a, T, params.nettype)
      case Err(e) => Err(e)
      case Ok(nt) =>
        if !nt.directed && T == 0 then Err(Empty)
        else
        var contacts := ContactsOf(G, a, T, nt);
        Ok(ContactDict(
          Some(contacts),
          if nt.weighted then Some(ValuesAt(G, contacts)) else None,
          Some(NetTypeName(nt)),
          Some(Tuple([a, b, T])),
          Some("node,node,time"),
          Some("discrete"),
          Some(if params.diagonal.Some? then params.diagonal.value else 0.0)))
  }

  /** What graphlet2contact promises: a non-square array is rejected; the
      contacts are exactly the nonzero off-diagonal entries (only i < j when
      undirected), without repetition and in non-decreasing time; for a
      weighted network values[k] is the entry at contact k. */
  lemma Graphlet2ContactFacts(G: Graphlet, a: nat, b: nat, T: nat, params: ContactParams)
    requires Shaped(G, a, b, T)
    ensures a != b ==> Graphlet2Contact(G, a, b, T, params) == Err(NotSquare)
    ensures a == b && T == 0 && !(params.nodelabels.Some? && |params.nodelabels.value| > 0 && |params.nodelabels.value| != a) &&
            ResolveNettype(G, a, T, params.nettype).Ok? && !ResolveNettype(G, a, T, params.nettype).value.directed ==>
              Graphlet2Contact(G, a, b, T, params) == Err(Empty)
    ensures Graphlet2Contact(G, a, b, T, params).Ok? ==>
              var C := Graphlet2Contact(G, a, b, T, params).value;
              var nt := ParseNetType(C.nettype.value).value;
              var cs := C.contacts.value;
              a == b && C.netshape == Some(Tuple([a, a, T])) && (T == 0 ==> nt.directed) &&
              (forall p :: p in cs <==>
                 p.0 < a && p.1 < a && p.2 < T && p.0 != p.1 && G[p.0][p.1][p.2] != 0.0 &&
                 (nt.directed || p.0 < p.1)) &&
              (forall x, y :: 0 <= x < y < |cs| ==> cs[x].2 <= cs[y].2 && cs[x] != cs[y]) &&
              (C.values.Some? <==> nt.weighted) &&
              (nt.weighted ==>
                 |C.values.value| == |cs| &&
                 forall k :: 0 <= k < |cs| ==> C.values.value[k] == G[cs[k].0][cs[k].1][cs[k].2])
  {
    if Graphlet2Contact(G, a, b, T, params).Ok? {
      var nt := ResolveNettype(G, a, T, params.nettype).value;
      NetTypeRoundTrip(nt);
      ContactsOfFacts(G, a, T, nt);
      var cs := ContactsOf(G, a, T, nt);
      forall k | 0 <= k < |cs| ensures ValuesAt(G, cs)[k] == G[cs[k].0][cs[k].1][cs[k].2] {
        assert cs[k] in cs;
      }
    }
  }

  // ---------------------------------------------------------------------
  // contact2graphlet

  /** The parts of a contact dictionary that passed contact2graphlet's checks. */
  datatype Checked = Checked(nt: NetType, a: nat, b: nat, c: nat, contacts: seq<Contact>, values: seq<real>)

  /** The key checks of contact2graphlet, in the source's order. A missing
      'timetype' is a KeyError; a present but non-discrete one only warns.
      A dictionary passes exactly when every check holds, and otherwise the
      first check that fails names the error. */
  function CheckContactDict(C: ContactDict): (r: Result<Checked>)
    ensures r.Ok? <==>
              C.dimord == Some("node,node,time") &&
              C.nettype.Some? && C.nettype.value in {"bd", "bu", "wd", "wu"} &&
              C.netshape.Some? && C.netshape.value.Tuple? && |C.netshape.value.dims| == 3 &&
              (C.nettype.value[0] == 'w' ==> C.values.Some?) &&
              C.contacts.Some? && C.timetype.Some?
    ensures C.dimord.None? ==> r == Err(MissingKey("dimord"))
    ensures C.dimord.Some? && C.dimord.value != "node,node,time" ==> r == Err(BadValue("dimord"))
    ensures C.dimord == Some("node,node,time") && C.nettype.None? ==> r == Err(MissingKey("nettype"))
    ensures C.dimord == Some("node,node,time") && C.nettype.Some? && C.nettype.value !in {"bd", "bu", "wd", "wu"} ==>
              r == Err(BadValue("nettype"))
    ensures C.dimord == Some("node,node,time") && C.nettype.Some? && C.nettype.value in {"bd", "bu", "wd", "wu"} ==>
              (C.netshape.None? ==> r == Err(MissingKey("netshape"))) &&
              (C.netshape.Some? && (C.netshape.value.NotTuple? || |C.netshape.value.dims| != 3) ==>
                 r == Err(BadValue("netshape"))) &&
              (C.netshape.Some? && C.netshape.value.Tuple? && |C.netshape.value.dims| == 3 ==>
                 (C.nettype.value[0] == 'w' && C.values.None? ==> r == Err(MissingKey("values"))) &&
                 ((C.nettype.value[0] == 'w' ==> C.values.Some?) && C.contacts.None? ==>
                    r == Err(MissingKey("contacts"))) &&
                 ((C.nettype.value[0] == 'w' ==> C.values.Some?) && C.contacts.Some? && C.timetype.None? ==>
                    r == Err(MissingKey("timetype"))))
    ensures r.Ok? ==> C.contacts == Some(r.value.contacts) && C.nettype == Some(NetTypeName(r.value.nt)) &&
                      C.netshape == Some(Tuple([r.value.a, r.value.b, r.value.c])) &&
                      (r.value.nt.weighted ==> C.values == Some(r.value.values))
  {
    if C.dimord.None? then Err(MissingKey("dimord"))
    else if C.dimord.value != "node,node,time" then Err(BadValue("dimord"))
    else if C.nettype.None? then Err(MissingKey("nettype"))
    else if ParseNetType(C.nettype.value).None? then
      NetTypeNames(C.nettype.value);
      Err(BadValue("nettype"))
    else if C.netshape.None? then Err(MissingKey("netshape"))
    else if C.netshape.value.NotTuple? then Err(BadValue("netshape"))
    else if |C.netshape.value.dims| != 3 then Err(BadValue("netshape"))
    else
      var nt := ParseNetType(C.nettype.value).value;
      NetTypeNames(C.nettype.value);
      if nt.weighted && C.values.None? then Err(MissingKey("values"))
      else if C.contacts.None? then Err(MissingKey("contacts"))
      else if C.timetype.None? then Err(MissingKey("timetype"))
      else
        var sh := C.netshape.value.dims;
        assert sh == [sh[0], sh[1], sh[2]];
        Ok(Checked(nt, sh[0], sh[1], sh[2], C.contacts.value,
                   if nt.weighted then C.values.value else []))
  }

  /** The value written for contact k: 1 when binary; the k-th value when
      weighted, a single value being broadcast to every contact. */
  function WrittenValue(ck: Checked, k: nat): real
    requires k < |ck.contacts| && (!ck.nt.weighted || |ck.values| == |ck.contacts| || |ck.values| == 1)
  {
    if !ck.nt.weighted then 1.0
    else if |ck.values| == 1 then ck.values[0]
    else ck.values[k]
  }

  /** The writes of contact2graphlet: each contact, then (undirected) each
      contact mirrored to (j, i, t). */
  function PlacedCells(ck: Checked): (cells: seq<Cell>)
    requires !ck.nt.weighted || |ck.values| == |ck.contacts| || |ck.values| == 1
    ensures |cells| == (if ck.nt.directed then 1 else 2) * |ck.contacts|
  {
    var cs := ck.contacts;
    var fwd := seq(|cs|, k requires 0 <= k < |cs| => Cell(cs[k].0, cs[k].1, cs[k].2, WrittenValue(ck, k)));
    var back := seq(|cs|, k requires 0 <= k < |cs| => Cell(cs[k].1, cs[k].0, cs[k].2, WrittenValue(ck, k)));
    if ck.nt.directed then fwd else fwd + back
  }

  /** The array contact2graphlet builds from checked input. */
  function Place(ck: Checked, diagonal: Option<real>): (r: Result<Graphlet>)
    ensures r.Ok? ==> Shaped(r.value, ck.a, ck.b, ck.c)
    ensures r.Ok? ==> forall p :: p in ck.contacts ==>
              p.0 < ck.a && p.1 < ck.b && p.2 < ck.c && (!ck.nt.directed ==> p.1 < ck.a && p.0 < ck.b)
  {
    if ck.nt.weighted && |ck.values| != |ck.contacts| && |ck.values| != 1 then Err(SizeMismatch)
    else
      var cells := PlacedCells(ck);
      if !CellsFit(cells, ck.a, ck.b, ck.c) then Err(IndexOutOfRange)
      else
        assert forall k :: 0 <= k < |ck.contacts| ==>
                 cells[k].i == ck.contacts[k].0 && cells[k].j == ck.contacts[k].1 && cells[k].t == ck.contacts[k].2;
        assert !ck.nt.directed ==> forall k :: 0 <= k < |ck.contacts| ==>
                 cells[|ck.contacts| + k].i == ck.contacts[k].1 && cells[|ck.contacts| + k].j == ck.contacts[k].0;
        var G := WriteAll(Zeros(ck.a, ck.b, ck.c), ck.a, ck.b, ck.c, cells);
        if diagonal.None? then Err(MissingKey("diagonal"))
        else if diagonal.value != 0.0 then Ok(WithDiagonal(G, diagonal.value))
        else Ok(G)
  }

  /** contact2graphlet as written: an empty contact list becomes a 1-D
      index array, and indexing its second axis raises. */
  function Contact2GraphletAsWritten(C: ContactDict): (r: Result<Graphlet>)
  {
    match CheckContactDict(C)
    case Err(e) => Err(e)
    case Ok(ck) => if |ck.contacts| == 0 then Err(IndexOutOfRange) else Place(ck, C.diagonal)
  }

  /** contact2graphlet with an empty contact list giving the empty network. */
  function Contact2Graphlet(C: ContactDict): (r: Result<Graphlet>)
    ensures r.Ok? ==> C.netshape.Some? && |C.netshape.value.dims| == 3 &&
                      Shaped(r.value, C.netshape.value.dims[0], C.netshape.value.dims[1], C.netshape.value.dims[2])
  {
    match CheckContactDict(C)
    case Err(e) => Err(e)
    case Ok(ck) => Place(ck, C.diagonal)
  }

  /** The two versions differ only on an empty contact list, where the
      source raises although the intended result is the all-zero array
      (with the requested diagonal). */
  lemma EmptyContactsCrash(C: ContactDict)
    requires CheckContactDict(C).Ok?
    ensures |C.contacts.value| > 0 ==> Contact2GraphletAsWritten(C) == Contact2Graphlet(C)
    ensures |C.contacts.value| == 0 ==> Contact2GraphletAsWritten(C) == Err(IndexOutOfRange)
    ensures |C.contacts.value| == 0 && C.diagonal == Some(0.0) && (!CheckContactDict(C).value.nt.weighted || |C.values.value| <= 1) ==>
              var ck := CheckContactDict(C).value;
              Contact2Graphlet(C) == Ok(Zeros(ck.a, ck.b, ck.c))
  {
  }

  /** A concrete dictionary on which the source raises: a valid binary
      undirected 2 x 2 x 1 network without contacts, its netshape the
      tuple graphlet2contact writes. The same dictionary with a list
      netshape is already rejected by the checks, before any indexing. */
  lemma EmptyContactsExample()
    ensures var C := ContactDict(Some([]), None, Some("bu"), Some(Tuple([2, 2, 1])), Some("node,node,time"),
                                 Some("discrete"), Some(0.0));
            Contact2GraphletAsWritten(C) == Err(IndexOutOfRange) &&
            Contact2Graphlet(C) == Ok(Zeros(2, 2, 1)) &&
            Contact2GraphletAsWritten(C.(netshape := Some(NotTuple([2, 2, 1])))) == Err(BadValue("netshape"))
  {
    var C := ContactDict(Some([]), None, Some("bu"), Some(Tuple([2, 2, 1])), Some("node,node,time"),
                         Some("discrete"), Some(0.0));
    assert ParseNetType("bu") == Some(NetType(false, false));
    assert CheckContactDict(C) == Ok(Checked(NetType(false, false), 2, 2, 1, [], []));
  }

  /** What contact2graphlet builds: the requested diagonal (when nonzero)
      and otherwise the last value written to each entry, 0 if none. */
  lemma Contact2GraphletEntries(C: ContactDict, i: nat, j: nat, t: nat)
    requires Contact2Graphlet(C).Ok?
    requires var sh := C.netshape.value.dims; i < sh[0] && j < sh[1] && t < sh[2]
    ensures var ck := CheckContactDict(C).value;
            var d := C.diagonal.value;
            var cells := PlacedCells(ck);
            Contact2Graphlet(C).value[i][j][t] ==
              if i == j && d != 0.0 then d
              else match LastWrite(cells, i, j, t)
                   case Some(v) => v
                   case None => 0.0
  {
    var ck := CheckContactDict(C).value;
    WriteAllAt(Zeros(ck.a, ck.b, ck.c), ck.a, ck.b, ck.c, PlacedCells(ck), i, j, t);
  }

  /** For a binary nettype every entry off the diagonal is 0 or 1; a
      diagonal entry holds the requested nonzero diagonal value, so the
      whole array is 0/1 when that value is 0 or 1. */
  lemma Contact2GraphletBinary(C: ContactDict, i: nat, j: nat, t: nat)
    requires Contact2Graphlet(C).Ok? && !CheckContactDict(C).value.nt.weighted
    requires var ck := CheckContactDict(C).value; i < ck.a && j < ck.b && t < ck.c
    ensures i == j && C.diagonal.value != 0.0 ==> Contact2Graphlet(C).value[i][j][t] == C.diagonal.value
    ensures i != j || C.diagonal.value in {0.0, 1.0} ==> Contact2Graphlet(C).value[i][j][t] in {0.0, 1.0}
  {
    var ck := CheckContactDict(C).value;
    var cells := PlacedCells(ck);
    Contact2GraphletEntries(C, i, j, t);
    LastWriteSome(cells, i, j, t);
  }

  /** Every off-diagonal contact holds its value (1 when binary) after
      contact2graphlet, provided no later write hits the same entry; an
      undirected network also holds it at the mirrored entry. */
  lemma Contact2GraphletContact(C: ContactDict, k: nat)
    requires Contact2Graphlet(C).Ok?
    requires var ck := CheckContactDict(C).value;
             k < |ck.contacts| && ck.contacts[k].0 != ck.contacts[k].1
    requires var cells := PlacedCells(CheckContactDict(C).value);
             forall p, q :: 0 <= p < q < |cells| ==>
               (cells[p].i, cells[p].j, cells[p].t) != (cells[q].i, cells[q].j, cells[q].t)
    ensures var ck := CheckContactDict(C).value;
            var c := ck.contacts[k];
            var G := Contact2Graphlet(C).value;
            G[c.0][c.1][c.2] == WrittenValue(ck, k) &&
            (!ck.nt.directed ==> G[c.1][c.0][c.2] == WrittenValue(ck, k))
  {
    var ck := CheckContactDict(C).value;
    var c := ck.contacts[k];
    var cells := PlacedCells(ck);
    assert c in ck.contacts;
    LastWriteUnique(cells, k);
    Contact2GraphletEntries(C, c.0, c.1, c.2);
    if !ck.nt.directed {
      var m := |ck.contacts| + k;
      LastWriteUnique(cells, m);
      Contact2GraphletEntries(C, c.1, c.0, c.2);
    }
  }

  // ---------------------------------------------------------------------
  // Round trip

  /** What graphlet2contact followed by contact2graphlet gives back: the
      diagonal holds d; off it, the entry itself when weighted, and whether
      it is nonzero when binary. */
  function Restored(G: Graphlet, n: nat, T: nat, weighted: bool, d: real): (R: Graphlet)
    requires Shaped(G, n, n, T)
    ensures Shaped(R, n, n, T)
  {
    seq(n, i requires 0 <= i < n =>
      seq(n, j requires 0 <= j < n =>
        seq(T, t requires 0 <= t < T =>
          if i == j then d
          else if weighted then G[i][j][t]
          else if G[i][j][t] != 0.0 then 1.0 else 0.0)))
  }

  /** The checked form of graphlet2contact's output. */
  lemma CheckOwnOutput(G: Graphlet, n: nat, T: nat, params: ContactParams)
    requires Shaped(G, n, n, T) && Graphlet2Contact(G, n, n, T, params).Ok?
    ensures var nt := ResolveNettype(G, n, T, params.nettype).value;
            CheckContactDict(Graphlet2Contact(G, n, n, T, params).value) ==
              Ok(OwnChecked(G, n, T, nt, ContactsOf(G, n, T, nt)))
  {
    var nt := ResolveNettype(G, n, T, params.nettype).value;
    NetTypeRoundTrip(nt);
  }

  /** cs lists, without repetition, exactly the contacts of G under nt. */
  ghost predicate ContactsFor(G: Graphlet, n: nat, T: nat, nt: NetType, cs: seq<Contact>)
    requires Shaped(G, n, n, T)
  {
    (forall p :: p in cs <==>
       p.0 < n && p.1 < n && p.2 < T && p.0 != p.1 && G[p.0][p.1][p.2] != 0.0 &&
       (nt.directed || p.0 < p.1)) &&
    (forall x, y :: 0 <= x < y < |cs| ==> cs[x] != cs[y])
  }

  /** The checked dictionary graphlet2contact's output yields. */
  function OwnChecked(G: Graphlet, n: nat, T: nat, nt: NetType, cs: seq<Contact>): Checked
  {
    Checked(nt, n, n, T, cs, if nt.weighted then ValuesAt(G, cs) else [])
  }

  /** The k-th write: forward for k < |cs|, mirrored after that. */
  lemma PlacedCellAt(ck: Checked, k: nat)
    requires !ck.nt.weighted || |ck.values| == |ck.contacts| || |ck.values| == 1
    requires k < |PlacedCells(ck)|
    ensures var cs, m := ck.contacts, |ck.contacts|;
            var cells := PlacedCells(ck);
            (k < m ==> cells[k] == Cell(cs[k].0, cs[k].1, cs[k].2, WrittenValue(ck, k))) &&
            (k >= m ==> !ck.nt.directed &&
                        cells[k] == Cell(cs[k - m].1, cs[k - m].0, cs[k - m].2, WrittenValue(ck, k - m)))
  {
  }

  /** The writes made when converting graphlet2contact's output back never
      hit an entry twice, and all lie inside the n x n x T array. */
  lemma OwnCellsDistinct(G: Graphlet, n: nat, T: nat, nt: NetType, cs: seq<Contact>)
    requires Shaped(G, n, n, T) && ContactsFor(G, n, T, nt, cs)
    ensures var cells := PlacedCells(OwnChecked(G, n, T, nt, cs));
            CellsFit(cells, n, n, T) &&
            forall p, q :: 0 <= p < q < |cells| ==>
              (cells[p].i, cells[p].j, cells[p].t) != (cells[q].i, cells[q].j, cells[q].t)
  {
    var ck := OwnChecked(G, n, T, nt, cs);
    var cells := PlacedCells(ck);
    var m := |cs|;
    forall k | 0 <= k < |cells| ensures cells[k].i < n && cells[k].j < n && cells[k].t < T {
      PlacedCellAt(ck, k);
      if k < m { assert cs[k] in cs; } else { assert cs[k - m] in cs; }
    }
    forall p, q | 0 <= p < q < |cells|
      ensures (cells[p].i, cells[p].j, cells[p].t) != (cells[q].i, cells[q].j, cells[q].t)
    {
      PlacedCellAt(ck, p);
      PlacedCellAt(ck, q);
      if q < m {
        assert cs[p] != cs[q];
      } else if p >= m {
        assert cs[p - m] != cs[q - m];
      } else {
        assert cs[p] in cs && cs[q - m] in cs;
      }
    }
  }

  /** The value contact2graphlet writes at an off-diagonal nonzero entry. */
  function OffValue(G: Graphlet, n: nat, T: nat, nt: NetType, i: nat, j: nat, t: nat): real
    requires Shaped(G, n, n, T) && i < n && j < n && t < T
  {
    if nt.weighted then G[i][j][t] else 1.0
  }

  /** A contact of G is written once, with its own value. */
  lemma OwnLastWriteForward(G: Graphlet, n: nat, T: nat, nt: NetType, cs: seq<Contact>, k: nat)
    requires Shaped(G, n, n, T) && ContactsFor(G, n, T, nt, cs) && k < |cs|
    ensures cs[k].0 < n && cs[k].1 < n && cs[k].2 < T
    ensures LastWrite(PlacedCells(OwnChecked(G, n, T, nt, cs)), cs[k].0, cs[k].1, cs[k].2) ==
              Some(OffValue(G, n, T, nt, cs[k].0, cs[k].1, cs[k].2))
  {
    var ck := OwnChecked(G, n, T, nt, cs);
    assert cs[k] in cs;
    OwnCellsDistinct(G, n, T, nt, cs);
    PlacedCellAt(ck, k);
    LastWriteUnique(PlacedCells(ck), k);
  }

  /** Undirected: the mirror of a contact is written once, with its value. */
  lemma OwnLastWriteMirror(G: Graphlet, n: nat, T: nat, nt: NetType, cs: seq<Contact>, k: nat)
    requires Shaped(G, n, n, T) && ContactsFor(G, n, T, nt, cs) && k < |cs| && !nt.directed
    requires IsSymmetric(G, n, T)
    ensures cs[k].0 < n && cs[k].1 < n && cs[k].2 < T
    ensures LastWrite(PlacedCells(OwnChecked(G, n, T, nt, cs)), cs[k].1, cs[k].0, cs[k].2) ==
              Some(OffValue(G, n, T, nt, cs[k].1, cs[k].0, cs[k].2))
  {
    var ck := OwnChecked(G, n, T, nt, cs);
    assert cs[k] in cs;
    OwnCellsDistinct(G, n, T, nt, cs);
    PlacedCellAt(ck, |cs| + k);
    LastWriteUnique(PlacedCells(ck), |cs| + k);
    assert G[cs[k].1][cs[k].0][cs[k].2] == G[cs[k].0][cs[k].1][cs[k].2];
  }

  /** An entry that is neither a contact nor (undirected) a mirrored
      contact is never written. */
  lemma OwnLastWriteNone(G: Graphlet, n: nat, T: nat, nt: NetType, cs: seq<Contact>, i: nat, j: nat, t: nat)
    requires Shaped(G, n, n, T) && ContactsFor(G, n, T, nt, cs)
    requires (i, j, t) !in cs && (nt.directed || (j, i, t) !in cs)
    ensures LastWrite(PlacedCells(OwnChecked(G, n, T, nt, cs)), i, j, t) == None
  {
    var ck := OwnChecked(G, n, T, nt, cs);
    var cells := PlacedCells(ck);
    var m := |cs|;
    forall k | 0 <= k < |cells| ensures (cells[k].i, cells[k].j, cells[k].t) != (i, j, t) {
      PlacedCellAt(ck, k);
      if k < m {
        assert cs[k] in cs;
      } else {
        assert cs[k - m] in cs;
      }
    }
    LastWriteNone(cells, i, j, t);
  }

  /** The last write to (i, j, t): the off-diagonal nonzero entries get
      their value, everything else is never written. */
  lemma OwnLastWrite(G: Graphlet, n: nat, T: nat, nt: NetType, cs: seq<Contact>, i: nat, j: nat, t: nat)
    requires Shaped(G, n, n, T) && ContactsFor(G, n, T, nt, cs)
    requires nt.directed || IsSymmetric(G, n, T)
    requires i < n && j < n && t < T
    ensures LastWrite(PlacedCells(OwnChecked(G, n, T, nt, cs)), i, j, t) ==
              if i != j && G[i][j][t] != 0.0 then Some(OffValue(G, n, T, nt, i, j, t)) else None
  {
    if (i, j, t) in cs {
      var k :| 0 <= k < |cs| && cs[k] == (i, j, t);
      OwnLastWriteForward(G, n, T, nt, cs, k);
    } else if !nt.directed && (j, i, t) in cs {
      var k :| 0 <= k < |cs| && cs[k] == (j, i, t);
      OwnLastWriteMirror(G, n, T, nt, cs, k);
    } else {
      OwnLastWriteNone(G, n, T, nt, cs, i, j, t);
      if i != j && G[i][j][t] != 0.0 {
        assert false;
      }
    }
  }

  /** Before the diagonal fill, the rebuilt array holds 0 on the diagonal
      and, off it, the entry itself (weighted) or 1 for a nonzero entry
      (binary). */
  lemma RoundTripAt(G: Graphlet, n: nat, T: nat, nt: NetType, cs: seq<Contact>, i: nat, j: nat, t: nat)
    requires Shaped(G, n, n, T) && ContactsFor(G, n, T, nt, cs)
    requires nt.directed || IsSymmetric(G, n, T)
    requires i < n && j < n && t < T
    ensures var cells := PlacedCells(OwnChecked(G, n, T, nt, cs));
            CellsFit(cells, n, n, T) &&
            WriteAll(Zeros(n, n, T), n, n, T, cells)[i][j][t] ==
              if i == j then 0.0
              else if nt.weighted then G[i][j][t]
              else if G[i][j][t] != 0.0 then 1.0 else 0.0
  {
    var cells := PlacedCells(OwnChecked(G, n, T, nt, cs));
    OwnCellsDistinct(G, n, T, nt, cs);
    WriteAllAt(Zeros(n, n, T), n, n, T, cells, i, j, t);
    OwnLastWrite(G, n, T, nt, cs, i, j, t);
  }

  /** Placing graphlet2contact's own contacts rebuilds the restored array. */
  lemma PlaceOwn(G: Graphlet, n: nat, T: nat, nt: NetType, cs: seq<Contact>, d: real)
    requires Shaped(G, n, n, T) && ContactsFor(G, n, T, nt, cs)
    requires nt.directed || IsSymmetric(G, n, T)
    ensures Place(OwnChecked(G, n, T, nt, cs), Some(d)) == Ok(Restored(G, n, T, nt.weighted, d))
  {
    var ck := OwnChecked(G, n, T, nt, cs);
    var cells := PlacedCells(ck);
    OwnCellsDistinct(G, n, T, nt, cs);
    var W := WriteAll(Zeros(n, n, T), n, n, T, cells);
    var R := Restored(G, n, T, nt.weighted, d);
    var out := if d != 0.0 then WithDiagonal(W, d) else W;
    assert Place(ck, Some(d)) == Ok(out);
    forall i | 0 <= i < n ensures out[i] == R[i] {
      forall j | 0 <= j < n ensures out[i][j] == R[i][j] {
        forall t | 0 <= t < T ensures out[i][j][t] == R[i][j][t] {
          RoundTripAt(G, n, T, nt, cs, i, j, t);
        }
      }
    }
    assert out == R;
  }

  /** contact2graphlet(graphlet2contact(G)) restores G with the diagonal
      set to the recorded diagonal value, binarised for a binary nettype,
      provided an undirected nettype is only given for a symmetric G. */
  lemma RoundTrip(G: Graphlet, n: nat, T: nat, params: ContactParams)
    requires Shaped(G, n, n, T) && Graphlet2Contact(G, n, n, T, params).Ok?
    requires ResolveNettype(G, n, T, params.nettype).value.directed || IsSymmetric(G, n, T)
    ensures var C := Graphlet2Contact(G, n, n, T, params).value;
            var nt := ResolveNettype(G, n, T, params.nettype).value;
            Contact2Graphlet(C) == Ok(Restored(G, n, T, nt.weighted, C.diagonal.value))
  {
    var C := Graphlet2Contact(G, n, n, T, params).value;
    var nt := ResolveNettype(G, n, T, params.nettype).value;
    var cs := ContactsOf(G, n, T, nt);
    CheckOwnOutput(G, n, T, params);
    ContactsOfFacts(G, n, T, nt);
    PlaceOwn(G, n, T, nt, cs, C.diagonal.value);
  }

  /** With the nettype detected automatically the round trip holds for
      every graphlet with at least one time slice; with none, the detected
      type is undirected and graphlet2contact fails. */
  lemma RoundTripAuto(G: Graphlet, n: nat, T: nat, d: real)
    requires Shaped(G, n, n, T)
    ensures T > 0 ==>
              var params := ContactParams(None, Some(d), None);
              Graphlet2Contact(G, n, n, T, params).Ok? &&
              Contact2Graphlet(Graphlet2Contact(G, n, n, T, params).value) ==
                Ok(Restored(G, n, T, GenNettype(G, n, T).weighted, d))
    ensures T == 0 ==> Graphlet2Contact(G, n, n, T, ContactParams(None, Some(d), None)) == Err(Empty)
  {
    if T > 0 {
      RoundTrip(G, n, T, ContactParams(None, Some(d), None));
    } else {
      assert !GenNettype(G, n, T).directed;
    }
  }

  // ---------------------------------------------------------------------
  // binarize_magnitude

  /** binarize_magnitude on a graphlet: an array that is not square in its
      node axes is not recognised as a graphlet and is refused; otherwise 1
      where the entry is above the level ('pos'), below it ('neg') or either
      ('both'), then a zero diagonal. Any other sign selects nothing. */
  function BinarizeMagnitude(G: Graphlet, a: nat, b: nat, T: nat, level: real, sign: string): (r: Result<Graphlet>)
    requires Shaped(G, a, b, T)
    ensures a != b <==> r.Err?
    ensures r.Err? ==> r.error == BadValue("netIn")
    ensures r.Ok? ==> Shaped(r.value, a, b, T)
  {
    if a != b then Err(BadValue("netIn"))
    else
      var pos := sign == "pos" || sign == "both";
      var neg := sign == "neg" || sign == "both";
      var marked := seq(a, i requires 0 <= i < a =>
                      seq(b, j requires 0 <= j < b =>
                        seq(T, t requires 0 <= t < T =>
                          if (pos && G[i][j][t] > level) || (neg && G[i][j][t] < level) then 1.0 else 0.0)));
      Ok(WithDiagonal(marked, 0.0))
  }

  /** On a square graphlet the binarised network is binary with a zero
      diagonal; 'pos' marks the entries above the level, 'neg' those below,
      'both' those different from it, and an unknown sign none. */
  lemma BinarizeMagnitudeFacts(G: Graphlet, n: nat, T: nat, level: real, sign: string)
    requires Shaped(G, n, n, T)
    ensures BinarizeMagnitude(G, n, n, T, level, sign).Ok?
    ensures IsBinary(BinarizeMagnitude(G, n, n, T, level, sign).value)
    ensures forall i, j, t :: 0 <= i < n && 0 <= j < n && 0 <= t < T ==>
              var x := BinarizeMagnitude(G, n, n, T, level, sign).value[i][j][t];
              (i == j ==> x == 0.0) &&
              (sign == "pos" ==> (x == 1.0 <==> i != j && G[i][j][t] > level)) &&
              (sign == "neg" ==> (x == 1.0 <==> i != j && G[i][j][t] < level)) &&
              (sign == "both" ==> (x == 1.0 <==> i != j && G[i][j][t] != level)) &&
              (sign !in {"pos", "neg", "both"} ==> x == 0.0)
  {
  }

  /** Raising the level never marks more entries under 'pos'. */
  lemma BinarizeMagnitudeMonotone(G: Graphlet, n: nat, T: nat, lo: real, hi: real)
    requires Shaped(G, n, n, T) && lo <= hi
    ensures forall i, j, t :: 0 <= i < n && 0 <= j < n && 0 <= t < T ==>
              BinarizeMagnitude(G, n, n, T, hi, "pos").value[i][j][t] <=
                BinarizeMagnitude(G, n, n, T, lo, "pos").value[i][j][t]
  {
  }

  // ---------------------------------------------------------------------
  // multiple_contacts_get_values

  function Id(c: Contact): Contact
  {
    c
  }

  /** How often each key occurs in s. */
  function Counts(keys: seq<Contact>, s: seq<Contact>): (r: seq<nat>)
    ensures |r| == |keys|
  {
    seq(|keys|, k requires 0 <= k < |keys| => multiset(s)[keys[k]])
  }

  /** Over the distinct contacts, the occurrence counts add up to the
      number of contacts. */
  lemma {:induction false} CountsSum(s: seq<Contact>)
    ensures SumNat(Counts(DedupBy(s, Id), s)) == |s|
  {
    if |s| > 0 {
      var init, c := s[..|s| - 1], s[|s| - 1];
      assert s == init + [c];
      CountsSum(init);
      var keys := DedupBy(init, Id);
      DedupByFacts(init, Id);
      if c in KeySet(keys, Id) {
        var k :| 0 <= k < |keys| && keys[k] == c;
        CountsSeen(init, c, keys, k);
        SumNatIncrement(Counts(keys, init), k);
      } else {
        assert c !in KeySet(init, Id);
        CountsNew(init, c, keys);
        SumNatAppend(Counts(keys, init), 1);
      }
    }
  }

  /** A further occurrence of an already listed contact adds one to its count. */
  lemma CountsSeen(init: seq<Contact>, c: Contact, keys: seq<Contact>, k: nat)
    requires KeysDistinct(keys, Id) && k < |keys| && keys[k] == c
    ensures Counts(keys, init + [c]) == Counts(keys, init)[k := Counts(keys, init)[k] + 1]
  {
    var before := Counts(keys, init);
    assert multiset(init + [c]) == multiset(init) + multiset{c};
    forall x | 0 <= x < |keys| ensures Counts(keys, init + [c])[x] == before[k := before[k] + 1][x] {
      if x < k {
        assert Id(keys[x]) != Id(keys[k]);
      } else if x > k {
        assert Id(keys[k]) != Id(keys[x]);
      }
    }
  }

  /** A first occurrence adds a new contact with count one. */
  lemma CountsNew(init: seq<Contact>, c: Contact, keys: seq<Contact>)
    requires c !in KeySet(init, Id) && KeySet(keys, Id) == KeySet(init, Id)
    ensures Counts(keys + [c], init + [c]) == Counts(keys, init) + [1]
  {
    assert multiset(init + [c]) == multiset(init) + multiset{c};
    forall y | y in init ensures y != c {
      assert Id(y) in KeySet(init, Id);
    }
    assert c !in init;
    assert multiset(init)[c] == 0;
    forall x | 0 <= x < |keys| ensures Counts(keys + [c], init + [c])[x] == Counts(keys, init)[x] {
      assert Id(keys[x]) in KeySet(keys, Id);
    }
    assert Counts(keys + [c], init + [c])[|keys|] == 1;
  }

  /** The OrderedDict loop: the distinct contacts in first-occurrence
      order, and a map from each to its number of occurrences. */
  method CountContacts(cs: seq<Contact>) returns (order: seq<Contact>, d: map<Contact, nat>)
    ensures order == DedupBy(cs, Id)
    ensures forall c :: c in d <==> c in cs
    ensures forall c :: c in d ==> d[c] == multiset(cs)[c]
  {
    d, order := map[], [];
    for i := 0 to |cs|
      invariant order == DedupBy(cs[..i], Id)
      invariant forall c :: c in d <==> c in cs[..i]
      invariant forall c :: c in d ==> d[c] == multiset(cs[..i])[c]
    {
      var c := cs[i];
      var next := cs[..i + 1];
      assert next[..i] == cs[..i] && next[i] == c;
      assert next == cs[..i] + [c];
      DedupByFacts(cs[..i], Id);
      assert c in KeySet(order, Id) <==> c in cs[..i] by {
        assert KeySet(cs[..i], Id) == set x | x in cs[..i];
      }
      if c in d {
        d := d[c := d[c] + 1];
      } else {
        d := d[c := 1];
        order := order + [c];
      }
    }
    assert cs[..|cs|] == cs;
  }

  /** multiple_contacts_get_values: the contacts become the distinct
      contacts in first-occurrence order and the values their counts; the
      other keys are kept. */
  method MultipleContactsGetValues(C: ContactDict) returns (r: Result<ContactDict>)
    ensures C.contacts.None? ==> r == Err(MissingKey("contacts"))
    ensures C.contacts.Some? ==>
              var keys := DedupBy(C.contacts.value, Id);
              var counts := Counts(keys, C.contacts.value);
              r == Ok(C.(contacts := Some(keys),
                         values := Some(seq(|keys|, k requires 0 <= k < |keys| => counts[k] as real))))
  {
    if C.contacts.None? {
      return Err(MissingKey("contacts"));
    }
    var cs := C.contacts.value;
    var order, d := CountContacts(cs);
    DedupByFacts(cs, Id);
    assert forall k :: 0 <= k < |order| ==> order[k] in KeySet(order, Id);
    var values := seq(|order|, k requires 0 <= k < |order| => d[order[k]] as real);
    var counts := Counts(order, cs);
    assert forall k :: 0 <= k < |order| ==> order[k] in d && values[k] == counts[k] as real;
    assert values == seq(|order|, k requires 0 <= k < |order| => counts[k] as real);
    r := Ok(C.(contacts := Some(order), values := Some(values)));
  }

  /** The merged contacts are distinct, none is lost, each count is
      positive and the counts add up to the number of input contacts. */
  lemma MultipleContactsFacts(cs: seq<Contact>)
    ensures var keys := DedupBy(cs, Id);
            (forall x, y :: 0 <= x < y < |keys| ==> keys[x] != keys[y]) &&
            (forall c :: c in keys <==> c in cs) &&
            (forall k :: 0 <= k < |keys| ==> Counts(keys, cs)[k] >= 1) &&
            SumNat(Counts(keys, cs)) == |cs|
  {
    DedupByFacts(cs, Id);
    CountsSum(cs);
    var keys := DedupBy(cs, Id);
    forall c | c in cs ensures c in keys {
      assert Id(c) in KeySet(cs, Id);
    }
    forall k | 0 <= k < |keys| ensures Counts(keys, cs)[k] >= 1 {
      assert keys[k] in keys;
    }
  }
}
