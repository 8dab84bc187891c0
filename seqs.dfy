/** Facts about sequences shared by the order-preserving de-duplication of rows and the
    ordered-set operations on column names. */
module Seqs {

  /** No element occurs twice. */
  predicate Distinct<T(==)>(s: seq<T>) {
    forall i, j :: 0 <= i < j < |s| ==> s[i] != s[j]
  }

  /** The position of the first occurrence of `x` in `s`. */
  function FirstIndex<T(==)>(s: seq<T>, x: T): (k: nat)
    requires x in s
    ensures k < |s| && s[k] == x
    ensures forall j :: 0 <= j < k ==> s[j] != x
  {
    if s[0] == x then 0 else 1 + FirstIndex(s[1..], x)
  }

  /** Every element of `r` occurs in `s`, and `r` lists them in the order of their first
      occurrences in `s`. */
  predicate InFirstOccurrenceOrder<T(==)>(r: seq<T>, s: seq<T>) {
    && (forall x :: x in r ==> x in s)
    && (forall i, j :: 0 <= i < j < |r| && r[i] in s && r[j] in s ==>
          FirstIndex(s, r[i]) < FirstIndex(s, r[j]))
  }

  /** The first occurrence is the one with no occurrence before it. */
  lemma {:induction false} FirstIndexUnique<T>(s: seq<T>, x: T, k: nat)
    requires k < |s| && s[k] == x
    requires forall j :: 0 <= j < k ==> s[j] != x
    ensures x in s && FirstIndex(s, x) == k
  {
    if k > 0 {
      assert s[0] != x;
      assert forall j :: 0 <= j < k - 1 ==> s[1..][j] == s[j + 1];
      FirstIndexUnique(s[1..], x, k - 1);
    }
  }

  /** The position of the first occurrence is the same in any prefix that contains it. */
  lemma FirstIndexOfPrefix<T>(s: seq<T>, n: nat, x: T)
    requires n <= |s| && x in s[..n]
    ensures x in s && FirstIndex(s, x) == FirstIndex(s[..n], x)
  {
    var k := FirstIndex(s[..n], x);
    assert s[k] == s[..n][k];
    forall j | 0 <= j < k ensures s[j] != x {
      assert s[j] == s[..n][j];
    }
    FirstIndexUnique(s, x, k);
  }

  /** `s` without repetitions, keeping the first occurrence of each element, the way an
      ordered set built from `s` lists its elements. */
  function KeepFirst<T(==)>(s: seq<T>): seq<T>
    decreases |s|
  {
    if s == [] then []
    else
      var r := KeepFirst(s[..|s| - 1]);
      if s[|s| - 1] in r then r else r + [s[|s| - 1]]
  }

  /** `KeepFirst` keeps exactly the elements of `s`, each once, in the order in which they
      first occur. */
  lemma {:induction false} KeepFirstSpec<T>(s: seq<T>)
    ensures Distinct(KeepFirst(s))
    ensures forall x :: x in KeepFirst(s) <==> x in s
    ensures InFirstOccurrenceOrder(KeepFirst(s), s)
    ensures |KeepFirst(s)| <= |s|
  {
    if s != [] {
      var n := |s| - 1;
      var p, x := s[..n], s[n];
      KeepFirstSpec(p);
      var r := KeepFirst(p);
      assert s == p + [x];
      var out := KeepFirst(s);
      forall i, j | 0 <= i < j < |out| && out[i] in s && out[j] in s
        ensures FirstIndex(s, out[i]) < FirstIndex(s, out[j])
      {
        FirstIndexOfPrefix(s, n, out[i]);
        if j < |r| {
          FirstIndexOfPrefix(s, n, out[j]);
        } else {
          assert out[j] == x && x !in p;
          assert FirstIndex(s, x) == n;
        }
      }
    }
  }

  /** A sequence without repetitions is its own ordered set. */
  lemma {:induction false} KeepFirstOfDistinct<T>(s: seq<T>)
    requires Distinct(s)
    ensures KeepFirst(s) == s
  {
    if s != [] {
      var n := |s| - 1;
      assert Distinct(s[..n]);
      KeepFirstOfDistinct(s[..n]);
      KeepFirstSpec(s[..n]);
      assert s[n] !in s[..n];
      assert s == s[..n] + [s[n]];
    }
  }

  /** The elements of `s` that are not in `t`, in their order in `s`: the difference of two
      ordered sets. */
  function Minus<T(==, !new)>(s: seq<T>, t: seq<T>): (r: seq<T>)
    ensures forall x :: x in r <==> x in s && x !in t
    decreases |s|
  {
    if s == [] then []
    else
      var r := Minus(s[..|s| - 1], t);
      assert s == s[..|s| - 1] + [s[|s| - 1]];
      if s[|s| - 1] in t then r else r + [s[|s| - 1]]
  }

  /** Keeping some of the elements before the last one of `r`, in order, and then its last one,
      keeps `r`'s order. */
  lemma AppendKeepsOrder<T>(r: seq<T>, m: seq<T>, s: seq<T>)
    requires |r| > 0 && Distinct(r) && InFirstOccurrenceOrder(r, s)
    requires Distinct(m) && InFirstOccurrenceOrder(m, s)
    requires forall y :: y in m ==> y in r[..|r| - 1]
    ensures Distinct(m + [r[|r| - 1]]) && InFirstOccurrenceOrder(m + [r[|r| - 1]], s)
  {
    var n := |r| - 1;
    var out := m + [r[n]];
    forall i, j | 0 <= i < j < |out| && out[i] in s && out[j] in s
      ensures FirstIndex(s, out[i]) < FirstIndex(s, out[j])
    {
      assert out[i] == m[i];
      if j == |m| {
        assert m[i] in m && m[i] in r[..n];
        var i' :| 0 <= i' < n && r[..n][i'] == out[i];
        assert r[i'] == out[i] && r[n] == out[j];
      } else {
        assert out[j] == m[j];
      }
    }
    forall i, j | 0 <= i < j < |out| ensures out[i] != out[j] {
      assert out[i] == m[i];
      if j == |m| {
        assert m[i] in m && m[i] in r[..n];
        var i' :| 0 <= i' < n && r[..n][i'] == out[i];
        assert r[i'] == out[i];
      } else {
        assert out[j] == m[j];
      }
    }
    assert r[n] in r;
  }

  /** Removing elements keeps a sequence free of repetitions and keeps the order of what
      is left. */
  lemma {:induction false} MinusKeepsOrder<T(!new)>(r: seq<T>, t: seq<T>, s: seq<T>)
    requires Distinct(r) && InFirstOccurrenceOrder(r, s)
    ensures Distinct(Minus(r, t)) && InFirstOccurrenceOrder(Minus(r, t), s)
  {
    if r != [] {
      var n := |r| - 1;
      var p, x := r[..n], r[n];
      assert r == p + [x];
      assert Distinct(p) && InFirstOccurrenceOrder(p, s);
      MinusKeepsOrder(p, t, s);
      var m := Minus(p, t);
      var out := Minus(r, t);
      if x !in t {
        assert out == m + [x];
        AppendKeepsOrder(r, m, s);
      }
    }
  }

  lemma DistinctConcat<T>(a: seq<T>, b: seq<T>)
    requires Distinct(a) && Distinct(b) && forall x :: x in a ==> x !in b
    ensures Distinct(a + b)
  {
    forall i, j | 0 <= i < j < |a + b| ensures (a + b)[i] != (a + b)[j] {
      if i < |a| && j >= |a| {
        assert (a + b)[i] in a && (a + b)[j] == b[j - |a|];
      }
    }
  }
}
