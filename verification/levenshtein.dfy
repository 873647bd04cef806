/** Levenshtein edit distance, the quantity the `distance` function of the
    fastest-levenshtein package computes: the least number of single
    character insertions, deletions and substitutions that turn one string
    into the other. */
module Levenshtein {

  function Min3(x: nat, y: nat, z: nat): (m: nat)
    ensures m <= x && m <= y && m <= z
    ensures m == x || m == y || m == z
  {
    if x <= y && x <= z then x else if y <= z then y else z
  }

  /** The textbook recursion on the first characters: delete the head of
      `a`, insert the head of `b`, or match/substitute the two heads. */
  function Distance(a: string, b: string): (d: nat)
    ensures d <= (if |a| <= |b| then |b| else |a|)
    ensures d >= |a| - |b| && d >= |b| - |a|
    decreases |a| + |b|
  {
    if |a| == 0 then |b|
    else if |b| == 0 then |a|
    else
      Min3(Distance(a[1..], b) + 1,
           Distance(a, b[1..]) + 1,
           Distance(a[1..], b[1..]) + (if a[0] == b[0] then 0 else 1))
  }

  /** `b` is `a` with the character at `i` replaced by a different one. */
  ghost predicate SubstitutedAt(a: string, b: string, i: int) {
    && 0 <= i < |a| && |a| == |b|
    && a[..i] == b[..i] && a[i] != b[i] && a[i + 1..] == b[i + 1..]
  }

  /** `b` is `a` with the character at `i` removed. */
  ghost predicate DeletedAt(a: string, b: string, i: int) {
    0 <= i < |a| && b == a[..i] + a[i + 1..]
  }

  /** `b` arises from `a` by exactly one substitution, deletion or insertion. */
  ghost predicate OneEdit(a: string, b: string) {
    || (exists i :: SubstitutedAt(a, b, i))
    || (exists i :: DeletedAt(a, b, i))
    || (exists i :: DeletedAt(b, a, i))
  }

  lemma {:induction false} DistanceSelf(a: string)
    ensures Distance(a, a) == 0
    decreases |a|
  {
    if |a| > 0 {
      DistanceSelf(a[1..]);
    }
  }

  lemma {:induction false} DistanceZeroIsEqual(a: string, b: string)
    requires Distance(a, b) == 0
    ensures a == b
    decreases |a| + |b|
  {
    if |a| > 0 {
      DistanceZeroIsEqual(a[1..], b[1..]);
      assert a == [a[0]] + a[1..] && b == [b[0]] + b[1..];
    }
  }

  /** Distance zero means equal strings, and only that. */
  lemma {:induction false} DistanceZeroIff(a: string, b: string)
    ensures Distance(a, b) == 0 <==> a == b
  {
    if Distance(a, b) == 0 {
      DistanceZeroIsEqual(a, b);
    }
    if a == b {
      DistanceSelf(a);
    }
  }

  lemma {:induction false} DistanceSymmetric(a: string, b: string)
    ensures Distance(a, b) == Distance(b, a)
    decreases |a| + |b|
  {
    if |a| > 0 && |b| > 0 {
      DistanceSymmetric(a[1..], b);
      DistanceSymmetric(a, b[1..]);
      DistanceSymmetric(a[1..], b[1..]);
    }
  }

  /** Prepending the same character to both sides keeps a single edit. */
  lemma OneEditCons(c: char, a: string, b: string)
    requires OneEdit(a, b)
    ensures OneEdit([c] + a, [c] + b)
  {
    var a', b' := [c] + a, [c] + b;
    if i :| SubstitutedAt(a, b, i) {
      assert a'[..i + 1] == [c] + a[..i] && b'[..i + 1] == [c] + b[..i];
      assert a'[i + 2..] == a[i + 1..] && b'[i + 2..] == b[i + 1..];
      assert SubstitutedAt(a', b', i + 1);
    } else if i :| DeletedAt(a, b, i) {
      assert a'[..i + 1] + a'[i + 2..] == [c] + (a[..i] + a[i + 1..]);
      assert DeletedAt(a', b', i + 1);
    } else {
      var i :| DeletedAt(b, a, i);
      assert b'[..i + 1] + b'[i + 2..] == [c] + (b[..i] + b[i + 1..]);
      assert DeletedAt(b', a', i + 1);
    }
  }

  lemma {:induction false} DistanceOneIsOneEdit(a: string, b: string)
    requires Distance(a, b) == 1
    ensures OneEdit(a, b)
    decreases |a| + |b|
  {
    if |a| == 0 {
      assert DeletedAt(b, a, 0);
    } else if |b| == 0 {
      assert DeletedAt(a, b, 0);
    } else if Distance(a[1..], b) == 0 {
      DistanceZeroIff(a[1..], b);
      assert DeletedAt(a, b, 0);
    } else if Distance(a, b[1..]) == 0 {
      DistanceZeroIff(a, b[1..]);
      assert DeletedAt(b, a, 0);
    } else if a[0] != b[0] {
      DistanceZeroIff(a[1..], b[1..]);
      assert SubstitutedAt(a, b, 0);
    } else {
      DistanceOneIsOneEdit(a[1..], b[1..]);
      OneEditCons(a[0], a[1..], b[1..]);
      assert a == [a[0]] + a[1..] && b == [a[0]] + b[1..];
    }
  }

  lemma {:induction false} SubstitutionCostsAtMostOne(a: string, b: string, i: int)
    requires SubstitutedAt(a, b, i)
    ensures Distance(a, b) <= 1
    decreases i
  {
    if i == 0 {
      DistanceZeroIff(a[1..], b[1..]);
    } else {
      assert a[0] == a[..i][0] && b[0] == b[..i][0];
      assert a[1..][..i - 1] == a[..i][1..] && b[1..][..i - 1] == b[..i][1..];
      assert a[1..][i..] == a[i + 1..] && b[1..][i..] == b[i + 1..];
      SubstitutionCostsAtMostOne(a[1..], b[1..], i - 1);
    }
  }

  lemma {:induction false} DeletionCostsAtMostOne(a: string, b: string, i: int)
    requires DeletedAt(a, b, i)
    ensures Distance(a, b) <= 1
    decreases i
  {
    if i == 0 {
      assert b == a[1..];
      DistanceSelf(b);
    } else {
      assert b[0] == a[0];
      assert b[1..] == a[1..][..i - 1] + a[1..][i..];
      DeletionCostsAtMostOne(a[1..], b[1..], i - 1);
    }
  }

  /** Distance one means exactly one edit apart, and conversely. */
  lemma DistanceOneIff(a: string, b: string)
    ensures Distance(a, b) == 1 <==> OneEdit(a, b)
  {
    if Distance(a, b) == 1 {
      DistanceOneIsOneEdit(a, b);
    }
    if OneEdit(a, b) {
      if i :| SubstitutedAt(a, b, i) {
        SubstitutionCostsAtMostOne(a, b, i);
        assert a[i] != b[i];
      } else if i :| DeletedAt(a, b, i) {
        DeletionCostsAtMostOne(a, b, i);
      } else {
        var i :| DeletedAt(b, a, i);
        DeletionCostsAtMostOne(b, a, i);
        DistanceSymmetric(a, b);
      }
      DistanceZeroIff(a, b);
    }
  }

  /** One cell of the suffix table in terms of its three neighbours. */
  lemma DistanceOfSuffixes(a: string, b: string, i: nat, j: nat)
    requires i < |a| && j < |b|
    ensures Distance(a[i..], b[j..])
         == Min3(Distance(a[i + 1..], b[j..]) + 1,
                 Distance(a[i..], b[j + 1..]) + 1,
                 Distance(a[i + 1..], b[j + 1..]) + (if a[i] == b[j] then 0 else 1))
  {
    assert a[i..][1..] == a[i + 1..] && b[j..][1..] == b[j + 1..];
  }

  /** Entries `from..` of `row` hold the distances between `a[i..]` and the
      suffixes of `b`. */
  ghost predicate RowFrom(a: string, b: string, i: nat, row: seq<nat>, from: nat)
    requires i <= |a|
  {
    |row| == |b| + 1 && forall k :: from <= k <= |b| ==> row[k] == Distance(a[i..], b[k..])
  }

  /** One step of the right-to-left sweep that fills a row. */
  lemma ExtendRow(a: string, b: string, i: nat, row: seq<nat>, next: seq<nat>, j: nat)
    requires i < |a| && j < |b|
    requires RowFrom(a, b, i + 1, row, 0) && RowFrom(a, b, i, next, j + 1)
    ensures RowFrom(a, b, i, next[j := Min3(row[j] + 1, next[j + 1] + 1,
                                           row[j + 1] + (if a[i] == b[j] then 0 else 1))], j)
  {
    DistanceOfSuffixes(a, b, i, j);
  }

  /** Given the row of the suffix table for `a[i + 1..]`, computes the row
      for `a[i..]`, right to left. */
  method NextRow(a: string, b: string, i: nat, row: seq<nat>) returns (next: seq<nat>)
    requires i < |a| && |row| == |b| + 1
    requires forall j :: 0 <= j <= |b| ==> row[j] == Distance(a[i + 1..], b[j..])
    ensures |next| == |b| + 1
    ensures forall j :: 0 <= j <= |b| ==> next[j] == Distance(a[i..], b[j..])
  {
    var n := |b|;
    next := seq(n + 1, j requires 0 <= j <= n => |a| - i);
    assert next[n] == Distance(a[i..], b[n..]) by {
      assert b[n..] == [];
    }
    assert RowFrom(a, b, i + 1, row, 0);
    var j := n;
    while j > 0
      invariant 0 <= j <= n
      invariant RowFrom(a, b, i, next, j)
    {
      j := j - 1;
      ExtendRow(a, b, i, row, next, j);
      var cost := if a[i] == b[j] then 0 else 1;
      next := next[j := Min3(row[j] + 1, next[j + 1] + 1, row[j + 1] + cost)];
    }
  }

  /** Dynamic-programming computation of the distance, one row of the
      suffix table at a time, from the shortest suffix of `a` to the whole
      of it: `row[j]` holds the distance between the current suffix of `a`
      and `b[j..]`. */
  method EditDistance(a: string, b: string) returns (d: nat)
    ensures d == Distance(a, b)
  {
    var n := |b|;
    var row: seq<nat> := seq(n + 1, j requires 0 <= j <= n => n - j);
    assert forall j :: 0 <= j <= n ==> row[j] == Distance(a[|a|..], b[j..]) by {
      forall j | 0 <= j <= n
        ensures row[j] == Distance(a[|a|..], b[j..])
      {
        assert a[|a|..] == [];
      }
    }
    var i := |a|;
    while i > 0
      invariant 0 <= i <= |a|
      invariant |row| == n + 1
      invariant forall j :: 0 <= j <= n ==> row[j] == Distance(a[i..], b[j..])
    {
      row := NextRow(a, b, i - 1, row);
      i := i - 1;
    }
    assert a[0..] == a && b[0..] == b;
    d := row[0];
  }
}
