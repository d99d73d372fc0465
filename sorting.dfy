/** The part of `ORDER BY … LIMIT … OFFSET …` the queries rely on: row ids
    put in the order of a strict total order, then a window taken. The order
    always ends in the row id, so no two distinct rows tie. */
module Sorting {

  /** `less` is a strict total order on the integers. */
  ghost predicate StrictTotal(less: (int, int) -> bool) {
    && (forall a :: !less(a, a))
    && (forall a, b, c :: less(a, b) && less(b, c) ==> less(a, c))
    && (forall a, b :: a != b ==> less(a, b) || less(b, a))
  }

  lemma Transitive(less: (int, int) -> bool, a: int, b: int, c: int)
    requires StrictTotal(less) && less(a, b) && less(b, c)
    ensures less(a, c)
  {
  }

  /** Every element comes strictly before every later one. */
  ghost predicate Sorted(s: seq<int>, less: (int, int) -> bool) {
    forall i, j :: 0 <= i < j < |s| ==> less(s[i], s[j])
  }

  predicate Distinct(s: seq<int>) {
    forall i, j :: 0 <= i < j < |s| ==> s[i] != s[j]
  }

  /** x placed before the first element it precedes. */
  function Insert(x: int, s: seq<int>, less: (int, int) -> bool): (r: seq<int>)
    ensures multiset(r) == multiset(s) + multiset{x}
    ensures |r| == |s| + 1
    ensures forall y :: y in r <==> y in s || y == x
  {
    if s == [] || less(x, s[0]) then [x] + s
    else
      assert s == [s[0]] + s[1..];
      [s[0]] + Insert(x, s[1..], less)
  }

  /** Insertion sort: the order the database returns the rows in. */
  function Sort(s: seq<int>, less: (int, int) -> bool): (r: seq<int>)
    ensures multiset(r) == multiset(s)
    ensures |r| == |s|
    ensures forall x :: x in r <==> x in s
  {
    if s == [] then []
    else
      assert s == [s[0]] + s[1..];
      Insert(s[0], Sort(s[1..], less), less)
  }

  lemma {:induction false} InsertSorted(x: int, s: seq<int>, less: (int, int) -> bool)
    requires StrictTotal(less) && Sorted(s, less) && x !in s
    ensures Sorted(Insert(x, s, less), less)
  {
    if s == [] || less(x, s[0]) {
      var r := [x] + s;
      forall i, j | 0 <= i < j < |r| ensures less(r[i], r[j]) {
        assert r[j] == s[j - 1];
        if i == 0 {
          assert r[i] == x && less(x, s[0]);
          if j > 1 {
            Transitive(less, x, s[0], s[j - 1]);
          }
        } else {
          assert r[i] == s[i - 1];
        }
      }
    } else {
      assert x != s[0];
      assert less(s[0], x);
      InsertSorted(x, s[1..], less);
      var t := Insert(x, s[1..], less);
      forall j | 0 <= j < |t| ensures less(s[0], t[j]) {
        assert t[j] in multiset(s[1..]) + multiset{x};
        if t[j] != x {
          assert t[j] in s[1..];
          var k :| 0 <= k < |s[1..]| && s[1..][k] == t[j];
          assert s[k + 1] == t[j];
        }
      }
    }
  }

  /** Sorting distinct ids puts them in order. */
  lemma {:induction false} SortSorted(s: seq<int>, less: (int, int) -> bool)
    requires StrictTotal(less) && Distinct(s)
    ensures Sorted(Sort(s, less), less)
  {
    if s != [] {
      SortSorted(s[1..], less);
      var t := Sort(s[1..], less);
      assert s[0] !in multiset(t) by {
        forall k | 0 <= k < |s[1..]| ensures s[1..][k] != s[0] {
          assert s[1..][k] == s[k + 1];
        }
      }
      InsertSorted(s[0], t, less);
    }
  }

  /** A strictly sorted sequence holds no element twice. */
  lemma SortedDistinct(s: seq<int>, less: (int, int) -> bool)
    requires StrictTotal(less) && Sorted(s, less)
    ensures Distinct(s)
  {
    forall i, j | 0 <= i < j < |s| ensures s[i] != s[j] {
      assert less(s[i], s[j]);
    }
  }

  /** The head of a sorted sequence comes before every other element. */
  lemma SortedHead(s: seq<int>, less: (int, int) -> bool, x: int)
    requires Sorted(s, less) && x in s
    ensures x == s[0] || less(s[0], x)
  {
    var i :| 0 <= i < |s| && s[i] == x;
  }

  /** Removing the head keeps the rest of the multiset. */
  lemma TailMultiset(s: seq<int>)
    requires s != []
    ensures multiset(s[1..]) == multiset(s) - multiset{s[0]}
  {
    assert s == [s[0]] + s[1..];
  }

  /** A sorted arrangement of a set of distinct ids is unique: the order is
      decided by the ids alone. */
  lemma {:induction false} SortedUnique(s: seq<int>, t: seq<int>, less: (int, int) -> bool)
    requires StrictTotal(less) && Sorted(s, less) && Sorted(t, less)
    requires multiset(s) == multiset(t)
    ensures s == t
  {
    assert |s| == |multiset(s)| == |multiset(t)| == |t|;
    if s != [] {
      assert s[0] == t[0] by {
        assert s[0] in multiset(t) && t[0] in multiset(s);
        SortedHead(t, less, s[0]);
        SortedHead(s, less, t[0]);
        if s[0] != t[0] {
          Transitive(less, s[0], t[0], s[0]);
        }
      }
      TailMultiset(s);
      TailMultiset(t);
      SortedUnique(s[1..], t[1..], less);
      assert s == [s[0]] + s[1..] && t == [t[0]] + t[1..];
    }
  }

  /** The window `LIMIT count OFFSET offset`: empty past the end. */
  function Window(s: seq<int>, offset: nat, count: nat): (r: seq<int>)
    ensures |r| <= count
    ensures offset <= |s| ==> |r| == if |s| - offset < count then |s| - offset else count
    ensures forall k :: 0 <= k < |r| ==> offset + k < |s| && r[k] == s[offset + k]
    ensures forall x :: x in r ==> x in s
  {
    if offset >= |s| then []
    else if |s| - offset <= count then s[offset..]
    else s[offset..offset + count]
  }

  /** A full window followed by the next one is the double window. */
  lemma WindowsAdjacent(s: seq<int>, offset: nat, count: nat)
    ensures |Window(s, offset, count)| == count ==>
              Window(s, offset, count) + Window(s, offset + count, count) ==
              Window(s, offset, 2 * count)
  {
    var w0, w1, w := Window(s, offset, count), Window(s, offset + count, count),
                     Window(s, offset, 2 * count);
    if |w0| == count {
      assert |w| == |w0| + |w1|;
      forall k | 0 <= k < |w| ensures w[k] == (w0 + w1)[k] {
        if k >= count {
          assert w1[k - count] == s[offset + count + (k - count)];
        }
      }
    }
  }

  /** Keep the ids that satisfy p, in their order. */
  function Filter(s: seq<int>, p: int -> bool): (r: seq<int>)
    ensures forall x :: x in r <==> x in s && p(x)
    ensures |r| <= |s|
  {
    if s == [] then []
    else
      var rest := Filter(s[1..], p);
      assert forall x :: x in s <==> x == s[0] || x in s[1..];
      if p(s[0]) then [s[0]] + rest else rest
  }

  /** The head of a sequence without repeats is not in its tail, and the tail
      has no repeats either. */
  lemma DistinctTail(s: seq<int>)
    requires Distinct(s) && s != []
    ensures s[0] !in s[1..] && Distinct(s[1..])
  {
    forall k | 0 <= k < |s[1..]| ensures s[1..][k] != s[0] {
      assert s[1..][k] == s[k + 1];
    }
  }

  /** Putting a new element in front keeps a sequence free of repeats. */
  lemma DistinctCons(x: int, s: seq<int>)
    requires x !in s && Distinct(s)
    ensures Distinct([x] + s)
  {
    var r := [x] + s;
    forall i, j | 0 <= i < j < |r| ensures r[i] != r[j] {
      assert r[j] == s[j - 1];
      if i > 0 {
        assert r[i] == s[i - 1];
      }
    }
  }

  lemma {:induction false} FilterDistinct(s: seq<int>, p: int -> bool)
    requires Distinct(s)
    ensures Distinct(Filter(s, p))
  {
    if s != [] {
      DistinctTail(s);
      FilterDistinct(s[1..], p);
      if p(s[0]) {
        DistinctCons(s[0], Filter(s[1..], p));
      }
    }
  }
}
