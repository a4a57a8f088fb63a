/** Sequence helpers used by several modules: sums, filtering and
    first-occurrence de-duplication, with the facts the model relies on. */
module Seqs {

  /** Sum of a sequence of reals, summed from the front. */
  function Sum(s: seq<real>): real
  {
    if |s| == 0 then 0.0 else s[0] + Sum(s[1..])
  }

  /** Sum of a sequence of counts. */
  function SumNat(s: seq<nat>): nat
  {
    if |s| == 0 then 0 else s[0] + SumNat(s[1..])
  }

  lemma {:induction false} SumAppend(s: seq<real>, x: real)
    ensures Sum(s + [x]) == Sum(s) + x
  {
    if |s| > 0 {
      assert (s + [x])[1..] == s[1..] + [x];
      SumAppend(s[1..], x);
    }
  }

  lemma {:induction false} SumNatAppend(s: seq<nat>, x: nat)
    ensures SumNat(s + [x]) == SumNat(s) + x
  {
    if |s| > 0 {
      assert (s + [x])[1..] == s[1..] + [x];
      SumNatAppend(s[1..], x);
    }
  }

  /** Incrementing one count raises the total by one. */
  lemma {:induction false} SumNatIncrement(s: seq<nat>, k: nat)
    requires k < |s|
    ensures SumNat(s[k := s[k] + 1]) == SumNat(s) + 1
  {
    if k > 0 {
      assert s[k := s[k] + 1][1..] == s[1..][k - 1 := s[k] + 1];
      SumNatIncrement(s[1..], k - 1);
    }
  }

  /** A sequence of n copies of c sums to n * c. */
  lemma {:induction false} SumConstant(s: seq<real>, c: real)
    requires forall k :: 0 <= k < |s| ==> s[k] == c
    ensures Sum(s) == |s| as real * c
  {
    if |s| > 0 {
      SumConstant(s[1..], c);
    }
  }

  /** r is obtained from s by deleting elements, keeping the order of the rest. */
  ghost predicate SubseqOf<T>(r: seq<T>, s: seq<T>)
    decreases |s|
  {
    if |r| == 0 then true
    else if |s| == 0 then false
    else if r[|r| - 1] == s[|s| - 1] then SubseqOf(r[..|r| - 1], s[..|s| - 1])
    else SubseqOf(r, s[..|s| - 1])
  }

  lemma {:induction false} SubseqOfSelf<T>(s: seq<T>)
    ensures SubseqOf(s, s)
  {
    if |s| > 0 {
      SubseqOfSelf(s[..|s| - 1]);
    }
  }

  lemma {:induction false} SubseqOfMembers<T>(r: seq<T>, s: seq<T>)
    requires SubseqOf(r, s)
    ensures forall x :: x in r ==> x in s
    decreases |s|
  {
    if |r| > 0 && |s| > 0 {
      if r[|r| - 1] == s[|s| - 1] {
        SubseqOfMembers(r[..|r| - 1], s[..|s| - 1]);
        assert r == r[..|r| - 1] + [r[|r| - 1]];
        assert s == s[..|s| - 1] + [s[|s| - 1]];
      } else {
        SubseqOfMembers(r, s[..|s| - 1]);
        assert s == s[..|s| - 1] + [s[|s| - 1]];
      }
    }
  }

  /** The elements of s that satisfy p, in their original order. */
  function Filter<T>(s: seq<T>, p: T -> bool): (r: seq<T>)
    ensures |r| <= |s|
    ensures forall x :: x in r ==> x in s && p(x)
    ensures forall x :: x in s && p(x) ==> x in r
  {
    if |s| == 0 then []
    else
      var rest := Filter(s[..|s| - 1], p);
      assert s == s[..|s| - 1] + [s[|s| - 1]];
      if p(s[|s| - 1]) then rest + [s[|s| - 1]] else rest
  }

  lemma {:induction false} FilterSubseq<T>(s: seq<T>, p: T -> bool)
    ensures SubseqOf(Filter(s, p), s)
  {
    if |s| > 0 {
      FilterSubseq(s[..|s| - 1], p);
      var rest := Filter(s[..|s| - 1], p);
      if p(s[|s| - 1]) {
        assert (rest + [s[|s| - 1]])[..|rest|] == rest;
      } else {
        FilterSubseqExtend(rest, s);
      }
    }
  }

  /** Appending to the longer sequence keeps a subsequence a subsequence. */
  lemma {:induction false} FilterSubseqExtend<T>(r: seq<T>, s: seq<T>)
    requires |s| > 0 && SubseqOf(r, s[..|s| - 1])
    ensures SubseqOf(r, s)
    decreases |s|, 0
  {
    if |r| > 0 && r[|r| - 1] == s[|s| - 1] {
      SubseqDropLast(r, s[..|s| - 1]);
    }
  }

  /** Dropping the last element of a subsequence keeps it a subsequence. */
  lemma {:induction false} SubseqDropLast<T>(r: seq<T>, s: seq<T>)
    requires |r| > 0 && SubseqOf(r, s)
    ensures SubseqOf(r[..|r| - 1], s)
    decreases |s|, 1
  {
    if |s| > 0 {
      if r[|r| - 1] == s[|s| - 1] {
        FilterSubseqExtend(r[..|r| - 1], s);
      } else {
        SubseqDropLast(r, s[..|s| - 1]);
        FilterSubseqExtend(r[..|r| - 1], s);
      }
    }
  }

  /** s is strictly increasing under lt. */
  ghost predicate SortedBy<T>(s: seq<T>, lt: (T, T) -> bool)
  {
    forall p, q :: 0 <= p < q < |s| ==> lt(s[p], s[q])
  }

  /** Filtering keeps a sequence sorted. */
  lemma {:induction false} FilterSorted<T>(s: seq<T>, p: T -> bool, lt: (T, T) -> bool)
    requires SortedBy(s, lt)
    ensures SortedBy(Filter(s, p), lt)
  {
    if |s| > 0 {
      var init := s[..|s| - 1];
      assert SortedBy(init, lt);
      FilterSorted(init, p, lt);
      var rest := Filter(init, p);
      if p(s[|s| - 1]) {
        var r := rest + [s[|s| - 1]];
        forall a, b | 0 <= a < b < |r| ensures lt(r[a], r[b]) {
          if b == |r| - 1 {
            assert r[a] in init;
            var k :| 0 <= k < |init| && init[k] == r[a];
          }
        }
      }
    }
  }

  /** Keeps the first element of every key, in order of first occurrence. */
  function DedupBy<T(==), K(==)>(s: seq<T>, key: T -> K): (r: seq<T>)
  {
    if |s| == 0 then []
    else
      var rest := DedupBy(s[..|s| - 1], key);
      if key(s[|s| - 1]) in KeySet(rest, key) then rest else rest + [s[|s| - 1]]
  }

  function KeySet<T(==), K>(s: seq<T>, key: T -> K): set<K>
  {
    set x | x in s :: key(x)
  }

  /** No two elements share a key. */
  ghost predicate KeysDistinct<T, K>(s: seq<T>, key: T -> K)
  {
    forall p, q :: 0 <= p < q < |s| ==> key(s[p]) != key(s[q])
  }

  /** s[p] is the first element of s with its key. */
  ghost predicate FirstOfKey<T, K>(s: seq<T>, key: T -> K, p: int)
  {
    0 <= p < |s| && forall q :: 0 <= q < p ==> key(s[q]) != key(s[p])
  }

  /** What de-duplication guarantees: the kept elements have distinct keys,
      every key of the input is kept, each kept element is the first one of
      its key, and the kept elements are in input order. */
  lemma {:induction false} DedupByFacts<T, K>(s: seq<T>, key: T -> K)
    ensures KeysDistinct(DedupBy(s, key), key)
    ensures KeySet(DedupBy(s, key), key) == KeySet(s, key)
    ensures forall x :: x in DedupBy(s, key) ==>
              exists p :: FirstOfKey(s, key, p) && s[p] == x
    ensures SubseqOf(DedupBy(s, key), s)
    decreases |s|, 1
  {
    if |s| > 0 {
      var init := s[..|s| - 1];
      assert s == init + [s[|s| - 1]];
      if key(s[|s| - 1]) in KeySet(DedupBy(init, key), key) {
        DedupSeen(init, s[|s| - 1], key);
      } else {
        DedupNew(init, s[|s| - 1], key);
      }
    }
  }

  /** The step of DedupByFacts where the last key was already kept. */
  lemma {:induction false} DedupSeen<T, K>(init: seq<T>, last: T, key: T -> K)
    requires key(last) in KeySet(DedupBy(init, key), key)
    ensures KeysDistinct(DedupBy(init + [last], key), key)
    ensures KeySet(DedupBy(init + [last], key), key) == KeySet(init + [last], key)
    ensures forall x :: x in DedupBy(init + [last], key) ==>
              exists p :: FirstOfKey(init + [last], key, p) && (init + [last])[p] == x
    ensures SubseqOf(DedupBy(init + [last], key), init + [last])
    decreases |init| + 1, 0
  {
    var s := init + [last];
    assert s[..|s| - 1] == init;
    DedupByFacts(init, key);
    var rest := DedupBy(init, key);
    assert DedupBy(s, key) == rest;
    assert KeySet(s, key) == KeySet(init, key) + {key(last)};
    FilterSubseqExtend(rest, s);
    forall x | x in rest ensures exists p :: FirstOfKey(s, key, p) && s[p] == x {
      var p :| FirstOfKey(init, key, p) && init[p] == x;
      assert FirstOfKey(s, key, p) && s[p] == x;
    }
  }

  /** The step of DedupByFacts where the last element brings a new key. */
  lemma {:induction false} DedupNew<T, K>(init: seq<T>, last: T, key: T -> K)
    requires key(last) !in KeySet(DedupBy(init, key), key)
    ensures KeysDistinct(DedupBy(init + [last], key), key)
    ensures KeySet(DedupBy(init + [last], key), key) == KeySet(init + [last], key)
    ensures forall x :: x in DedupBy(init + [last], key) ==>
              exists p :: FirstOfKey(init + [last], key, p) && (init + [last])[p] == x
    ensures SubseqOf(DedupBy(init + [last], key), init + [last])
    decreases |init| + 1, 0
  {
    var s := init + [last];
    assert s[..|s| - 1] == init;
    DedupByFacts(init, key);
    var rest := DedupBy(init, key);
    var r := rest + [last];
    assert DedupBy(s, key) == r;
    assert r[..|r| - 1] == rest;
    assert KeySet(r, key) == KeySet(rest, key) + {key(last)};
    assert KeySet(s, key) == KeySet(init, key) + {key(last)};
    forall x | x in r ensures exists p :: FirstOfKey(s, key, p) && s[p] == x {
      if x in rest {
        var p :| FirstOfKey(init, key, p) && init[p] == x;
        assert FirstOfKey(s, key, p) && s[p] == x;
      } else {
        assert x == last;
        forall q | 0 <= q < |s| - 1 ensures key(s[q]) != key(last) {
          assert key(init[q]) in KeySet(init, key);
        }
        assert FirstOfKey(s, key, |s| - 1);
      }
    }
    forall p, q | 0 <= p < q < |r| ensures key(r[p]) != key(r[q]) {
      if q == |r| - 1 {
        assert r[p] in rest;
      }
    }
  }
}
