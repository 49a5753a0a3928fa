/** Binary search over partitioned sequences. */
module Search {

  /** Rust's `partition_point`: how many leading elements satisfy `p`. */
  function PartitionPoint<T>(s: seq<T>, p: T -> bool): (r: nat)
    ensures r <= |s|
    ensures forall k :: 0 <= k < r ==> p(s[k])
    ensures r < |s| ==> !p(s[r])
  {
    if s == [] || !p(s[0]) then 0
    else
      var rest := PartitionPoint(s[1..], p);
      assert forall k :: 0 < k < 1 + rest ==> s[k] == s[1..][k - 1];
      1 + rest
  }

  /** On a partitioned sequence it is the length of the first part. */
  lemma {:induction false} PartitionIs<T>(a: seq<T>, b: seq<T>, p: T -> bool)
    requires forall x :: x in a ==> p(x)
    requires b != [] ==> !p(b[0])
    ensures PartitionPoint(a + b, p) == |a|
  {
    if a == [] {
      assert a + b == b;
    } else {
      assert a[0] in a;
      assert (a + b)[1..] == a[1..] + b;
      PartitionIs(a[1..], b, p);
    }
  }
}
