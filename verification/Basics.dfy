/** What the other modules share: optional values, minima, blanks and a few
    operations on sequences. */
module Basics {

  datatype Option<+T> = None | Some(value: T)

  function Min(a: nat, b: nat): nat {
    if a <= b then a else b
  }

  predicate IsBlank(c: char) {
    c == ' ' || c == '\t'
  }

  predicate AllBlank(s: string) {
    forall k :: 0 <= k < |s| ==> IsBlank(s[k])
  }

  function Splice<T>(s: seq<T>, from: nat, to: nat, mid: seq<T>): (r: seq<T>)
    requires from <= to <= |s|
    ensures from == to && mid == [] ==> r == s
  {
    s[..from] + mid + s[to..]
  }

  /** The elements that satisfy `keep`, in order. */
  function Filter<T(!new)>(s: seq<T>, keep: T -> bool): (r: seq<T>)
    ensures forall x :: x in r <==> x in s && keep(x)
  {
    if s == [] then []
    else
      var rest := Filter(s[..|s| - 1], keep);
      assert s == s[..|s| - 1] + [s[|s| - 1]];
      if keep(s[|s| - 1]) then rest + [s[|s| - 1]] else rest
  }

  lemma {:induction false} FilterConcat<T(!new)>(a: seq<T>, b: seq<T>, keep: T -> bool)
    ensures Filter(a + b, keep) == Filter(a, keep) + Filter(b, keep)
  {
    if b == [] {
      assert a + b == a;
    } else {
      FilterConcat(a, b[..|b| - 1], keep);
      assert (a + b)[..|a + b| - 1] == a + b[..|b| - 1];
    }
  }

  lemma {:induction false} FilterAll<T(!new)>(s: seq<T>, keep: T -> bool)
    requires forall x :: x in s ==> keep(x)
    ensures Filter(s, keep) == s
  {
    if s != [] {
      assert s[|s| - 1] in s;
      FilterAll(s[..|s| - 1], keep);
    }
  }

  lemma {:induction false} FilterNone<T(!new)>(s: seq<T>, keep: T -> bool)
    requires forall x :: x in s ==> !keep(x)
    ensures Filter(s, keep) == []
  {
    if s != [] {
      assert s[|s| - 1] in s;
      FilterNone(s[..|s| - 1], keep);
    }
  }

  /** What no step changes is at the end what it was at the start. */
  lemma {:induction false} SameAlong<T(!new)>(f: nat -> T, n: nat)
    requires forall k: nat :: k < n ==> f(k) == f(k + 1)
    ensures f(n) == f(0)
  {
    if n > 0 {
      SameAlong(f, n - 1);
    }
  }

  /** A map with one key taken out, or set anew. */
  lemma WithoutKey<K, V>(m: map<K, V>, k: K)
    ensures (m - {k}) - {k} == m - {k} && (m - {k}).Values <= m.Values && k !in m - {k}
  {
  }

  lemma KeySetAnew<K, V>(m: map<K, V>, k: K, v: V)
    ensures (m - {k})[k := v] - {k} == m - {k} && (m - {k})[k := v].Values - m.Values <= {v}
  {
    var r := (m - {k})[k := v];
    forall x | x in r.Values ensures x in m.Values || x == v {
      var j :| j in r && r[j] == x;
      assert j == k || (j in m && m[j] == x);
    }
  }

  lemma Associate<T>(a: seq<T>, b: seq<T>, c: seq<T>)
    ensures (a + b) + c == a + (b + c)
  {
  }
}
