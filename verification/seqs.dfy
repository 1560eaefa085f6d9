/**
 * The LINQ-style queries the repositories run against a table, written as
 * recursive scans over a sequence of rows and specified by what they select.
 */
module Seqs {
  import opened Base

  /** `FirstOrDefault(pred)`: the earliest row satisfying `pred`, or null. */
  function First<T(==)>(s: seq<T>, pred: T -> bool): (r: Option<T>)
    ensures r.None? <==> forall i :: 0 <= i < |s| ==> !pred(s[i])
    ensures r.Some? ==> r.value in s && pred(r.value)
    ensures r.Some? ==>
              exists i :: 0 <= i < |s| && s[i] == r.value && forall j :: 0 <= j < i ==> !pred(s[j])
  {
    if |s| == 0 then None
    else if pred(s[0]) then Some(s[0])
    else
      var r := First(s[1..], pred);
      assert r.Some? ==> exists i :: 1 <= i < |s| && s[i] == r.value && forall j :: 1 <= j < i ==> !pred(s[j]) by {
        if r.Some? {
          var k :| 0 <= k < |s[1..]| && s[1..][k] == r.value && forall j :: 0 <= j < k ==> !pred(s[1..][j]);
          assert s[k + 1] == r.value;
          assert forall j :: 1 <= j < k + 1 ==> !pred(s[j]) by {
            forall j | 1 <= j < k + 1 ensures !pred(s[j]) { assert s[j] == s[1..][j - 1]; }
          }
        }
      }
      r
  }

  /** `AnyAsync(pred)`: whether some row satisfies `pred`. */
  function Any<T>(s: seq<T>, pred: T -> bool): (r: bool)
    ensures r <==> exists i :: 0 <= i < |s| && pred(s[i])
  {
    if |s| == 0 then false
    else if pred(s[0]) then true
    else
      var r := Any(s[1..], pred);
      assert r <==> exists i :: 1 <= i < |s| && pred(s[i]) by {
        if r {
          var k :| 0 <= k < |s[1..]| && pred(s[1..][k]);
          assert pred(s[k + 1]);
        }
      }
      r
  }

  /** The rows satisfying `keep`, in their original order. */
  function Filter<T(==,!new)>(s: seq<T>, keep: T -> bool): (r: seq<T>)
    ensures |r| <= |s|
    ensures forall x :: x in r <==> x in s && keep(x)
    ensures forall x :: multiset(r)[x] == if keep(x) then multiset(s)[x] else 0
  {
    if |s| == 0 then []
    else
      var rest := Filter(s[1..], keep);
      assert s == [s[0]] + s[1..];
      assert multiset(s) == multiset{s[0]} + multiset(s[1..]);
      (if keep(s[0]) then [s[0]] else []) + rest
  }

  /** Every row satisfying `pred` replaced by `v`, every other row kept in place. */
  function ReplaceWhere<T>(s: seq<T>, pred: T -> bool, v: T): (r: seq<T>)
    ensures |r| == |s|
    ensures forall i :: 0 <= i < |s| ==> r[i] == if pred(s[i]) then v else s[i]
  {
    if |s| == 0 then []
    else [if pred(s[0]) then v else s[0]] + ReplaceWhere(s[1..], pred, v)
  }

  /** `rel` holds of every pair of rows, taken in table order. */
  predicate Pairwise<T>(s: seq<T>, rel: (T, T) -> bool)
  {
    forall i, j :: 0 <= i < j < |s| ==> rel(s[i], s[j])
  }

  /** A row can be put in front of rows it relates to. */
  lemma ConsPairwise<T>(x: T, rest: seq<T>, rel: (T, T) -> bool)
    requires Pairwise(rest, rel)
    requires forall j :: 0 <= j < |rest| ==> rel(x, rest[j])
    ensures Pairwise([x] + rest, rel)
  {
    var r := [x] + rest;
    forall i, j | 0 <= i < j < |r| ensures rel(r[i], r[j]) {
      assert r[j] == rest[j - 1];
      if i > 0 { assert r[i] == rest[i - 1]; }
    }
  }

  /** Dropping rows keeps a pairwise property. */
  lemma {:induction false} FilterPairwise<T(!new)>(s: seq<T>, keep: T -> bool, rel: (T, T) -> bool)
    requires Pairwise(s, rel)
    ensures Pairwise(Filter(s, keep), rel)
  {
    if |s| > 0 {
      var tail := s[1..];
      assert Pairwise(tail, rel) by {
        forall i, j | 0 <= i < j < |tail| ensures rel(tail[i], tail[j]) {
          assert tail[i] == s[i + 1] && tail[j] == s[j + 1];
        }
      }
      FilterPairwise(tail, keep, rel);
      var rest := Filter(tail, keep);
      if keep(s[0]) {
        forall j | 0 <= j < |rest| ensures rel(s[0], rest[j]) {
          assert rest[j] in tail;
          var k :| 0 <= k < |tail| && tail[k] == rest[j];
          assert s[k + 1] == rest[j];
        }
        ConsPairwise(s[0], rest, rel);
      }
    }
  }

  /** A row can be appended exactly when it relates to every row already there. */
  lemma AppendPairwise<T>(s: seq<T>, x: T, rel: (T, T) -> bool)
    ensures Pairwise(s + [x], rel) <==> Pairwise(s, rel) && forall i :: 0 <= i < |s| ==> rel(s[i], x)
  {
    var r := s + [x];
    if Pairwise(s, rel) && forall i :: 0 <= i < |s| ==> rel(s[i], x) {
      forall i, j | 0 <= i < j < |r| ensures rel(r[i], r[j]) {
        if j < |s| { assert r[i] == s[i] && r[j] == s[j]; } else { assert r[i] == s[i] && r[j] == x; }
      }
    }
    if Pairwise(r, rel) {
      forall i, j | 0 <= i < j < |s| ensures rel(s[i], s[j]) { assert r[i] == s[i] && r[j] == s[j]; }
      forall i | 0 <= i < |s| ensures rel(s[i], x) { assert r[i] == s[i] && r[|s|] == x; }
    }
  }
}
