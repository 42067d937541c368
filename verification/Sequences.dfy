/** The list operations of the standard vectors used below. */
module Sequences {
  predicate NoDuplicates<T(==)>(s: seq<T>) {
    forall i, j :: 0 <= i < j < |s| ==> s[i] != s[j]
  }

  function ToSet<T>(s: seq<T>): set<T> {
    set x | x in s
  }

  /** `retain`, and `filter` on an iterator. */
  function Keep<T(!new)>(s: seq<T>, p: T -> bool): (r: seq<T>)
    ensures forall x :: x in r <==> x in s && p(x)
    ensures |r| <= |s| && (|r| == |s| ==> r == s)
  {
    if s == [] then []
    else
      var n := |s| - 1;
      assert s == s[..n] + [s[n]];
      Keep(s[..n], p) + if p(s[n]) then [s[n]] else []
  }

  lemma {:induction false} KeepNoDuplicates<T(!new)>(s: seq<T>, p: T -> bool)
    requires NoDuplicates(s)
    ensures NoDuplicates(Keep(s, p))
    decreases |s|
  {
    if s != [] {
      var n := |s| - 1;
      KeepNoDuplicates(s[..n], p);
      assert s[n] !in s[..n];
    }
  }

  lemma {:induction false} KeepAll<T(!new)>(s: seq<T>, p: T -> bool)
    requires forall x :: x in s ==> p(x)
    ensures Keep(s, p) == s
    decreases |s|
  {
    if s != [] {
      var n := |s| - 1;
      assert s[n] in s;
      KeepAll(s[..n], p);
    }
  }

  lemma {:induction false} KeepAppend<T(!new)>(a: seq<T>, b: seq<T>, p: T -> bool)
    ensures Keep(a + b, p) == Keep(a, p) + Keep(b, p)
    decreases |b|
  {
    if b == [] {
      assert a + b == a;
    } else {
      var n := |b| - 1;
      assert (a + b)[..|a + b| - 1] == a + b[..n];
      KeepAppend(a, b[..n], p);
    }
  }

  /** `map` on an iterator. */
  function Apply<T, U>(s: seq<T>, f: T -> U): (r: seq<U>)
    ensures |r| == |s| && forall i :: 0 <= i < |s| ==> r[i] == f(s[i])
  {
    seq(|s|, i requires 0 <= i < |s| => f(s[i]))
  }

  lemma ApplyContains<T, U>(s: seq<T>, f: T -> U)
    ensures forall y :: y in Apply(s, f) <==> exists x :: x in s && f(x) == y
  {
    forall y | y in Apply(s, f) ensures exists x :: x in s && f(x) == y {
      var i :| 0 <= i < |s| && Apply(s, f)[i] == y;
      assert s[i] in s;
    }
    forall x | x in s ensures f(x) in Apply(s, f) {
      var i :| 0 <= i < |s| && s[i] == x;
      assert Apply(s, f)[i] == f(x);
    }
  }
}
