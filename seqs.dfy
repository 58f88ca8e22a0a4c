/** Sequence helpers shared by the lexicon post-processing and the attack
    pipeline: order-keeping filters, first-occurrence de-duplication (the key
    order a Python dict gets from insertion) and the subsequence relation. */
module Seqs {

  /** No element occurs twice. */
  predicate Distinct<T(==,!new)>(s: seq<T>) {
    forall i, j :: 0 <= i < j < |s| ==> s[i] != s[j]
  }

  /** `a` is obtained from `b` by deleting elements, without reordering. */
  predicate Subseq<T(==,!new)>(a: seq<T>, b: seq<T>)
    decreases |b|
  {
    if a == [] then true
    else if b == [] then false
    else if a[0] == b[0] then Subseq(a[1..], b[1..])
    else Subseq(a, b[1..])
  }

  /** The elements of `s` that satisfy `p`, in their order in `s`
      (a list comprehension with an `if`). */
  function Filter<T(==,!new)>(s: seq<T>, p: T -> bool): (r: seq<T>)
    ensures |r| <= |s|
    ensures forall x :: x in r <==> x in s && p(x)
  {
    if s == [] then []
    else if p(s[0]) then [s[0]] + Filter(s[1..], p)
    else Filter(s[1..], p)
  }

  /** Filtering keeps the order of what it keeps, and every kept value as
      often as it occurs. */
  lemma {:induction false} FilterKeepsOrder<T(!new)>(s: seq<T>, p: T -> bool)
    ensures Subseq(Filter(s, p), s)
    ensures forall x :: p(x) ==> multiset(Filter(s, p))[x] == multiset(s)[x]
  {
    if s != [] {
      var rest := Filter(s[1..], p);
      FilterKeepsOrder(s[1..], p);
      assert s == [s[0]] + s[1..];
      if p(s[0]) {
        assert ([s[0]] + rest)[1..] == rest;
      } else {
        assert rest != [] ==> rest[0] in rest && rest[0] != s[0];
      }
    }
  }

  /** Index of the first occurrence of `x` in `s`. */
  function FirstIndex<T(==,!new)>(s: seq<T>, x: T): (k: nat)
    requires x in s
    ensures k < |s| && s[k] == x && x !in s[..k]
  {
    if s[0] == x then 0
    else
      var k' := FirstIndex(s[1..], x);
      assert s[..k' + 1] == [s[0]] + s[1..][..k'];
      1 + k'
  }

  /** The elements of `s` without repetitions, each at the place of its first
      occurrence: the key list of a dict filled from `s` in order.
      Defined from the back, as a loop that appends builds it. */
  function Dedup<T(==,!new)>(s: seq<T>): (r: seq<T>)
    ensures Distinct(r)
    ensures forall x :: x in r <==> x in s
    ensures |r| <= |s|
  {
    if s == [] then []
    else
      var init, x := s[..|s| - 1], s[|s| - 1];
      assert s == init + [x];
      if x in init then Dedup(init) else Dedup(init) + [x]
  }

  lemma FirstIndexUnique<T(!new)>(s: seq<T>, x: T, k: nat)
    requires k < |s| && s[k] == x && x !in s[..k]
    ensures FirstIndex(s, x) == k
  {
    var f := FirstIndex(s, x);
  }

  /** Appending an element does not move the first occurrence of anything
      already present. */
  lemma FirstIndexSnoc<T(!new)>(s: seq<T>, y: T, x: T)
    requires x in s
    ensures FirstIndex(s + [y], x) == FirstIndex(s, x)
  {
    var k := FirstIndex(s, x);
    assert (s + [y])[..k] == s[..k];
    FirstIndexUnique(s + [y], x, k);
  }

  /** Dedup lists the distinct elements in the order of their first
      occurrence. */
  lemma {:induction false} DedupFirstOrder<T(!new)>(s: seq<T>)
    ensures forall i, j :: 0 <= i < j < |Dedup(s)| ==>
              FirstIndex(s, Dedup(s)[i]) < FirstIndex(s, Dedup(s)[j])
  {
    if s != [] {
      var init, x := s[..|s| - 1], s[|s| - 1];
      assert s == init + [x];
      DedupFirstOrder(init);
      var d := Dedup(init);
      forall y | y in init
        ensures FirstIndex(s, y) == FirstIndex(init, y)
      {
        FirstIndexSnoc(init, x, y);
      }
      if x !in init {
        assert s[..|init|] == init;
        FirstIndexUnique(s, x, |init|);
        forall i, j | 0 <= i < j < |Dedup(s)|
          ensures FirstIndex(s, Dedup(s)[i]) < FirstIndex(s, Dedup(s)[j])
        {
          assert Dedup(s) == d + [x];
          if j < |d| {
            assert d[i] in init && d[j] in init;
          } else {
            assert d[i] in init;
          }
        }
      } else {
        forall i, j | 0 <= i < j < |Dedup(s)|
          ensures FirstIndex(s, Dedup(s)[i]) < FirstIndex(s, Dedup(s)[j])
        {
          assert Dedup(s) == d;
          assert d[i] in init && d[j] in init;
        }
      }
    }
  }

  /** Filtering keeps the relative order of first occurrences. */
  lemma {:induction false} FilterFirstIndex<T(!new)>(s: seq<T>, p: T -> bool, x: T, y: T)
    requires x in Filter(s, p) && y in Filter(s, p)
    requires FirstIndex(Filter(s, p), x) < FirstIndex(Filter(s, p), y)
    ensures FirstIndex(s, x) < FirstIndex(s, y)
  {
    var f := Filter(s, p);
    if s[0] == x {
    } else if s[0] == y {
      assert false;
    } else {
      if p(s[0]) {
        assert f == [s[0]] + Filter(s[1..], p);
        assert FirstIndex(f, x) == 1 + FirstIndex(Filter(s[1..], p), x);
        assert FirstIndex(f, y) == 1 + FirstIndex(Filter(s[1..], p), y);
      }
      FilterFirstIndex(s[1..], p, x, y);
    }
  }

  lemma {:induction false} FilterDistinct<T(!new)>(s: seq<T>, p: T -> bool)
    requires Distinct(s)
    ensures Distinct(Filter(s, p))
  {
    if s != [] {
      assert Distinct(s[1..]) by {
        forall i, j | 0 <= i < j < |s[1..]| ensures s[1..][i] != s[1..][j] {
          assert s[1..][i] == s[i + 1] && s[1..][j] == s[j + 1];
        }
      }
      FilterDistinct(s[1..], p);
      if p(s[0]) {
        assert s[0] !in s[1..];
      }
    }
  }

  /** Filtering by `p` and then by `q` is filtering by their conjunction. */
  lemma {:induction false} FilterFilter<T(!new)>(s: seq<T>, p: T -> bool, q: T -> bool, pq: T -> bool)
    requires forall x :: pq(x) == (p(x) && q(x))
    ensures Filter(Filter(s, p), q) == Filter(s, pq)
  {
    if s != [] {
      FilterFilter(s[1..], p, q, pq);
      if p(s[0]) {
        assert ([s[0]] + Filter(s[1..], p))[1..] == Filter(s[1..], p);
      }
    }
  }

  /** A filter that keeps everything is the identity. */
  lemma {:induction false} FilterKeepsAll<T(!new)>(s: seq<T>, p: T -> bool)
    requires forall x :: x in s ==> p(x)
    ensures Filter(s, p) == s
  {
    if s != [] {
      FilterKeepsAll(s[1..], p);
      assert [s[0]] + s[1..] == s;
    }
  }

  /** Filtering distributes over concatenation. */
  lemma {:induction false} FilterConcat<T(!new)>(a: seq<T>, b: seq<T>, p: T -> bool)
    ensures Filter(a + b, p) == Filter(a, p) + Filter(b, p)
  {
    if a != [] {
      assert (a + b)[0] == a[0] && (a + b)[1..] == a[1..] + b;
      FilterConcat(a[1..], b, p);
    } else {
      assert a + b == b;
    }
  }

  /** Dedup of a sequence extended by one element: the element is appended
      exactly when it is new. */
  lemma DedupSnoc<T(!new)>(s: seq<T>, x: T)
    ensures Dedup(s + [x]) == if x in s then Dedup(s) else Dedup(s) + [x]
  {
    assert (s + [x])[..|s|] == s;
  }

  lemma DistinctConcat<T(!new)>(a: seq<T>, b: seq<T>)
    requires Distinct(a) && Distinct(b)
    requires forall x :: x in b ==> x !in a
    ensures Distinct(a + b)
  {
    forall i, j | 0 <= i < j < |a + b| ensures (a + b)[i] != (a + b)[j] {
      if j < |a| {
        assert (a + b)[i] == a[i] && (a + b)[j] == a[j];
      } else if i < |a| {
        assert (a + b)[i] == a[i] && (a + b)[j] == b[j - |a|];
        assert b[j - |a|] in b;
      } else {
        assert (a + b)[i] == b[i - |a|] && (a + b)[j] == b[j - |a|];
      }
    }
  }

  /** Filtering and then de-duplicating keeps the order of first occurrence
      in the unfiltered sequence. */
  lemma FilterDedupOrder<T(!new)>(s: seq<T>, p: T -> bool)
    ensures forall i, j :: 0 <= i < j < |Dedup(Filter(s, p))| ==>
              FirstIndex(s, Dedup(Filter(s, p))[i]) < FirstIndex(s, Dedup(Filter(s, p))[j])
  {
    var f := Filter(s, p);
    var d := Dedup(f);
    DedupFirstOrder(f);
    forall i, j | 0 <= i < j < |d| ensures FirstIndex(s, d[i]) < FirstIndex(s, d[j]) {
      FilterFirstIndex(s, p, d[i], d[j]);
    }
  }
}
