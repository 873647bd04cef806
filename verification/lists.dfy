/** The list operations of the pipeline: `Array.prototype.sort` with the
    default string order, `Array.prototype.find` and `filter`, and lodash's
    `uniq`. */
module Lists {
  import opened JsString

  ghost predicate Sorted(s: seq<string>) {
    forall i, j :: 0 <= i < j < |s| ==> LessEq(s[i], s[j])
  }

  ghost predicate StrictlySorted(s: seq<string>) {
    forall i, j :: 0 <= i < j < |s| ==> Less(s[i], s[j])
  }

  ghost predicate Distinct<T>(s: seq<T>) {
    forall i, j :: 0 <= i < j < |s| ==> s[i] != s[j]
  }

  lemma StrictlySortedIsDistinct(s: seq<string>)
    requires StrictlySorted(s)
    ensures Distinct(s)
  {
    forall i, j | 0 <= i < j < |s|
      ensures s[i] != s[j]
    {
      LessIrreflexive(s[i]);
    }
  }

  /** Places `x` into a sorted list, before the first element not below it. */
  function Insert(x: string, s: seq<string>): (r: seq<string>)
    requires Sorted(s)
    ensures Sorted(r)
    ensures multiset(r) == multiset(s) + multiset{x}
  {
    if |s| == 0 then [x]
    else if LessEq(x, s[0]) then
      assert forall j :: 0 <= j < |s| ==> LessEq(x, s[j]) by {
        forall j | 0 <= j < |s|
          ensures LessEq(x, s[j])
        {
          if j > 0 {
            LessEqTransitive(x, s[0], s[j]);
          }
        }
      }
      [x] + s
    else
      var t := Insert(x, s[1..]);
      assert s == [s[0]] + s[1..];
      assert forall k :: 0 <= k < |t| ==> LessEq(s[0], t[k]) by {
        LessTotal(x, s[0]);
        forall k | 0 <= k < |t|
          ensures LessEq(s[0], t[k])
        {
          assert t[k] in multiset(t);
          if t[k] != x {
            assert t[k] in multiset(s[1..]);
            var m :| 0 <= m < |s[1..]| && s[1..][m] == t[k];
            assert s[m + 1] == t[k];
          }
        }
      }
      [s[0]] + t
  }

  /** `Array.prototype.sort()`: a sorted permutation of the input. The
      result does not depend on the sorting algorithm, see `SortedUnique`. */
  function Sort(s: seq<string>): (r: seq<string>)
    ensures Sorted(r)
    ensures multiset(r) == multiset(s)
  {
    if |s| == 0 then []
    else
      assert s == [s[0]] + s[1..];
      Insert(s[0], Sort(s[1..]))
  }

  /** The first element of a sorted list is below everything in it. */
  lemma SortedHeadIsLeast(s: seq<string>, x: string)
    requires Sorted(s) && x in multiset(s)
    ensures LessEq(s[0], x)
  {
    var m :| 0 <= m < |s| && s[m] == x;
  }

  /** A sorted permutation is unique: any two sorted lists holding the same
      multiset of strings are equal. */
  lemma {:induction false} SortedUnique(a: seq<string>, b: seq<string>)
    requires Sorted(a) && Sorted(b) && multiset(a) == multiset(b)
    ensures a == b
    decreases |a|
  {
    if |a| > 0 {
      assert a[0] in multiset(b) && b[0] in multiset(a) by {
        assert a[0] in multiset(a) && b[0] in multiset(b);
      }
      SortedHeadIsLeast(b, a[0]);
      SortedHeadIsLeast(a, b[0]);
      LessEqAntisymmetric(a[0], b[0]);
      assert a == [a[0]] + a[1..] && b == [b[0]] + b[1..];
      assert multiset(a) == multiset{a[0]} + multiset(a[1..]);
      assert multiset(b) == multiset{b[0]} + multiset(b[1..]);
      assert multiset(a[1..]) == multiset(a) - multiset{a[0]};
      assert multiset(b[1..]) == multiset(b) - multiset{b[0]};
      SortedUnique(a[1..], b[1..]);
    }
  }

  lemma {:induction false} DistinctCardinality(s: seq<string>)
    requires Distinct(s)
    ensures |set x | x in s| == |s|
  {
    if |s| > 0 {
      var init := s[..|s| - 1];
      assert Distinct(init);
      DistinctCardinality(init);
      assert s == init + [s[|s| - 1]];
      assert s[|s| - 1] !in init;
      assert (set x | x in s) == (set x | x in init) + {s[|s| - 1]};
    }
  }

  /** A strictly increasing list is determined by its elements. */
  lemma StrictlySortedUnique(a: seq<string>, b: seq<string>)
    requires StrictlySorted(a) && StrictlySorted(b)
    requires forall x :: x in a <==> x in b
    ensures a == b
  {
    StrictlySortedIsDistinct(a);
    StrictlySortedIsDistinct(b);
    DistinctCardinality(a);
    DistinctCardinality(b);
    assert (set x | x in a) == (set x | x in b);
    StrictlySortedUniqueSameLength(a, b);
  }

  lemma {:induction false} StrictlySortedUniqueSameLength(a: seq<string>, b: seq<string>)
    requires StrictlySorted(a) && StrictlySorted(b) && |a| == |b|
    requires forall x :: x in a <==> x in b
    ensures a == b
    decreases |a|
  {
    if |a| > 0 {
      assert a[0] in a;
      assert a[0] in b;
      var j :| 0 <= j < |b| && b[j] == a[0];
      assert b[0] in b;
      var k :| 0 <= k < |a| && a[k] == b[0];
      assert LessEq(b[0], a[0]);
      assert LessEq(a[0], b[0]);
      LessEqAntisymmetric(a[0], b[0]);
      forall x
        ensures x in a[1..] <==> x in b[1..]
      {
        if x in a[1..] {
          var m :| 0 <= m < |a| - 1 && a[1..][m] == x;
          assert Less(a[0], a[m + 1]);
          LessIrreflexive(a[0]);
          assert x in b;
          var p :| 0 <= p < |b| && b[p] == x;
          assert p != 0;
          assert b[1..][p - 1] == x;
        }
        if x in b[1..] {
          var m :| 0 <= m < |b| - 1 && b[1..][m] == x;
          assert Less(b[0], b[m + 1]);
          LessIrreflexive(b[0]);
          assert x in a;
          var p :| 0 <= p < |a| && a[p] == x;
          assert p != 0;
          assert a[1..][p - 1] == x;
        }
      }
      StrictlySortedUniqueSameLength(a[1..], b[1..]);
      assert a == [a[0]] + a[1..] && b == [b[0]] + b[1..];
    }
  }

  datatype Option<T> = None | Some(value: T)

  /** `Array.prototype.find`: the first element satisfying `test`, if any. */
  function Find(s: seq<string>, test: string -> bool): (r: Option<string>)
    ensures r.None? <==> forall x :: x in s ==> !test(x)
    ensures r.Some? ==> exists k :: 0 <= k < |s| && s[k] == r.value && test(s[k])
                          && forall j :: 0 <= j < k ==> !test(s[j])
  {
    if |s| == 0 then None
    else if test(s[0]) then Some(s[0])
    else
      var r := Find(s[1..], test);
      assert forall x :: x in s <==> x == s[0] || x in s[1..] by {
        assert s == [s[0]] + s[1..];
      }
      if r.Some? then
        var k :| 0 <= k < |s| - 1 && s[1..][k] == r.value && test(s[1..][k])
                 && forall j :: 0 <= j < k ==> !test(s[1..][j]);
        assert s[k + 1] == r.value;
        assert forall j :: 0 <= j < k + 1 ==> !test(s[j]) by {
          forall j | 0 <= j < k + 1
            ensures !test(s[j])
          {
            if j > 0 {
              assert s[j] == s[1..][j - 1];
            }
          }
        }
        r
      else r
  }

  /** `Array.prototype.filter`: the elements satisfying `keep`, in order. */
  function Filter(s: seq<string>, keep: string -> bool): (r: seq<string>)
    ensures |r| <= |s|
    ensures forall x :: x in r <==> x in s && keep(x)
  {
    if |s| == 0 then []
    else
      var rest := Filter(s[1..], keep);
      assert forall x :: x in s <==> x == s[0] || x in s[1..] by {
        assert s == [s[0]] + s[1..];
      }
      if keep(s[0]) then [s[0]] + rest else rest
  }

  /** Filtering keeps a strictly increasing list strictly increasing. */
  lemma {:induction false} FilterOfStrictlySorted(s: seq<string>, keep: string -> bool)
    requires StrictlySorted(s)
    ensures StrictlySorted(Filter(s, keep))
  {
    if |s| > 0 {
      var rest := Filter(s[1..], keep);
      FilterOfStrictlySorted(s[1..], keep);
      if keep(s[0]) {
        forall j | 0 <= j < |rest|
          ensures Less(s[0], rest[j])
        {
          assert rest[j] in s[1..];
          var m :| 0 <= m < |s| - 1 && s[1..][m] == rest[j];
          assert s[m + 1] == rest[j];
        }
        forall i, j | 0 <= i < j < |rest| + 1
          ensures Less(([s[0]] + rest)[i], ([s[0]] + rest)[j])
        {
          if i > 0 {
            assert ([s[0]] + rest)[i] == rest[i - 1];
          }
          assert ([s[0]] + rest)[j] == rest[j - 1];
        }
      }
    }
  }

  /** Filtering distributes over concatenation: each part is filtered on its
      own and the results are kept in order. Together with `FilterOne` this
      fixes the result, order and repeats included. */
  lemma {:induction false} FilterDistributes(a: seq<string>, b: seq<string>, keep: string -> bool)
    ensures Filter(a + b, keep) == Filter(a, keep) + Filter(b, keep)
    decreases |a|
  {
    if |a| == 0 {
      assert a + b == b;
    } else {
      assert (a + b)[1..] == a[1..] + b;
      FilterDistributes(a[1..], b, keep);
    }
  }

  /** A single element is kept exactly when it passes the test. */
  lemma FilterOne(x: string, keep: string -> bool)
    ensures keep(x) ==> Filter([x], keep) == [x]
    ensures !keep(x) ==> Filter([x], keep) == []
  {
    assert [x][1..] == [];
  }

  /** Filtering with a test every element passes changes nothing. */
  lemma {:induction false} FilterKeepingAll(s: seq<string>, keep: string -> bool)
    requires forall x :: x in s ==> keep(x)
    ensures Filter(s, keep) == s
  {
    if |s| > 0 {
      assert s[0] in s;
      assert forall x :: x in s[1..] ==> x in s;
      FilterKeepingAll(s[1..], keep);
      assert s == [s[0]] + s[1..];
    }
  }

  /** lodash `uniq`: the first occurrence of every value, in input order. */
  function Uniq(s: seq<string>): (r: seq<string>)
    ensures Distinct(r)
    ensures forall x :: x in r <==> x in s
    ensures |r| <= |s|
  {
    if |s| == 0 then []
    else
      var init := s[..|s| - 1];
      var r := Uniq(init);
      assert forall x :: x in s <==> x in init || x == s[|s| - 1] by {
        assert s == init + [s[|s| - 1]];
      }
      if s[|s| - 1] in r then r else r + [s[|s| - 1]]
  }

  /** Position of the first occurrence of `x` in `s`. */
  function FirstIndex(s: seq<string>, x: string): (k: nat)
    requires x in s
    ensures k < |s| && s[k] == x
    ensures forall j :: 0 <= j < k ==> s[j] != x
  {
    if s[0] == x then 0 else 1 + FirstIndex(s[1..], x)
  }

  lemma FirstIndexOfPrefix(s: seq<string>, n: nat, x: string)
    requires n <= |s| && x in s[..n]
    ensures FirstIndex(s[..n], x) == FirstIndex(s, x)
  {
    var a, b := FirstIndex(s[..n], x), FirstIndex(s, x);
    assert s[a] == x;
    assert b <= a;
    assert s[..n][b] == x;
  }

  /** `uniq` keeps values in the order of their first occurrences. */
  lemma {:induction false} UniqKeepsFirstOccurrenceOrder(s: seq<string>)
    ensures forall i, j :: 0 <= i < j < |Uniq(s)| ==>
              FirstIndex(s, Uniq(s)[i]) < FirstIndex(s, Uniq(s)[j])
  {
    if |s| > 0 {
      var init := s[..|s| - 1];
      var last := s[|s| - 1];
      var r := Uniq(init);
      UniqKeepsFirstOccurrenceOrder(init);
      assert forall y :: y in init ==> FirstIndex(init, y) == FirstIndex(s, y) by {
        forall y | y in init
          ensures FirstIndex(init, y) == FirstIndex(s, y)
        {
          FirstIndexOfPrefix(s, |s| - 1, y);
        }
      }
      if last !in r {
        assert FirstIndex(s, last) == |s| - 1;
        assert Uniq(s) == r + [last];
        forall i, j | 0 <= i < j < |r| + 1
          ensures FirstIndex(s, (r + [last])[i]) < FirstIndex(s, (r + [last])[j])
        {
          if j == |r| {
            assert (r + [last])[i] == r[i];
            assert FirstIndex(s, r[i]) == FirstIndex(init, r[i]) < |init|;
          } else {
            assert (r + [last])[i] == r[i] && (r + [last])[j] == r[j];
          }
        }
      }
    }
  }

  /** On a list without repetitions `uniq` changes nothing. */
  lemma {:induction false} UniqOfDistinct(s: seq<string>)
    requires Distinct(s)
    ensures Uniq(s) == s
  {
    if |s| > 0 {
      var init := s[..|s| - 1];
      assert Distinct(init);
      UniqOfDistinct(init);
      assert s[|s| - 1] !in init;
      assert s == init + [s[|s| - 1]];
    }
  }

  /** `uniq` of a sorted list is strictly increasing. */
  lemma {:induction false} UniqOfSortedIsStrictlySorted(s: seq<string>)
    requires Sorted(s)
    ensures StrictlySorted(Uniq(s))
  {
    if |s| > 0 {
      var init := s[..|s| - 1];
      var last := s[|s| - 1];
      var r := Uniq(init);
      assert Sorted(init);
      UniqOfSortedIsStrictlySorted(init);
      if last !in r {
        forall i, j | 0 <= i < j < |r| + 1
          ensures Less((r + [last])[i], (r + [last])[j])
        {
          if j == |r| {
            assert (r + [last])[i] == r[i];
            assert r[i] in init;
            var m :| 0 <= m < |init| && init[m] == r[i];
            assert LessEq(s[m], s[|s| - 1]);
            assert r[i] != last;
          } else {
            assert (r + [last])[i] == r[i] && (r + [last])[j] == r[j];
          }
        }
      }
    }
  }
}
