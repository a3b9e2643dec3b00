/** `find_common_prefix_length` of wxgui/app.cpp: the length of the longest
    prefix shared by all command-line paths, computed by a nested loop that
    compares every later path with the first one, index by index. */
module CommonPrefix {

  /** No path is shorter than n. */
  ghost predicate BoundedByAll(p: seq<string>, n: nat)
  {
    forall i :: 0 <= i < |p| ==> n <= |p[i]|
  }

  /** Every path agrees with the first one below n. */
  ghost predicate AgreeBelow(p: seq<string>, n: nat)
    requires |p| > 0
  {
    forall i, k :: 0 <= i < |p| && 0 <= k < n && k < |p[i]| && k < |p[0]| ==> p[i][k] == p[0][k]
  }

  /** n cannot be extended: the first path ends at n, or some later path
      ends there, or some later path differs from the first one at n. */
  ghost predicate Maximal(p: seq<string>, n: nat)
    requires |p| > 0 && BoundedByAll(p, n)
  {
    n == |p[0]| || exists i :: 1 <= i < |p| && (n == |p[i]| || p[i][n] != p[0][n])
  }

  ghost predicate IsCommonPrefixLength(p: seq<string>, n: nat)
    requires |p| > 0
  {
    BoundedByAll(p, n) && AgreeBelow(p, n) && Maximal(p, n)
  }

  /** The three conditions fix the length: at most one n meets them. */
  lemma CommonPrefixLengthUnique(p: seq<string>, a: nat, b: nat)
    requires |p| > 0 && IsCommonPrefixLength(p, a) && IsCommonPrefixLength(p, b)
    ensures a == b
  {
    if a < b {
      var i :| 1 <= i < |p| && (a == |p[i]| || p[i][a] != p[0][a]);
    } else if b < a {
      var i :| 1 <= i < |p| && (b == |p[i]| || p[i][b] != p[0][b]);
    }
  }

  // ---------------------------------------------------------------------
  // An independent reference definition: the minimum, over the later
  // paths, of the longest prefix each shares with the first one.

  /** Length of the longest common prefix of two strings. */
  function Lcp(a: string, b: string): (k: nat)
    ensures k <= |a| && k <= |b| && a[..k] == b[..k]
    ensures k == |a| || k == |b| || a[k] != b[k]
    decreases |a|
  {
    if a == [] || b == [] || a[0] != b[0] then 0
    else
      var k' := Lcp(a[1..], b[1..]);
      assert a[1..][..k'] == a[1..k' + 1] && b[1..][..k'] == b[1..k' + 1];
      assert a[..k' + 1] == [a[0]] + a[1..k' + 1];
      assert b[..k' + 1] == [b[0]] + b[1..k' + 1];
      1 + k'
  }

  function Min(a: nat, b: nat): nat { if a <= b then a else b }

  function CommonPrefixLength(p: seq<string>): (n: nat)
    requires |p| > 0
    decreases |p|
  {
    if |p| == 1 then |p[0]|
    else Min(CommonPrefixLength(p[..|p| - 1]), Lcp(p[0], p[|p| - 1]))
  }

  lemma {:induction false} CommonPrefixLengthCorrect(p: seq<string>)
    requires |p| > 0
    ensures IsCommonPrefixLength(p, CommonPrefixLength(p))
    decreases |p|
  {
    if |p| > 1 {
      var q := p[..|p| - 1];
      var last := p[|p| - 1];
      CommonPrefixLengthCorrect(q);
      var m := CommonPrefixLength(q);
      var l := Lcp(p[0], last);
      var n := Min(m, l);
      assert q[0] == p[0];
      forall i, k | 0 <= i < |p| && 0 <= k < n && k < |p[i]| && k < |p[0]|
        ensures p[i][k] == p[0][k]
      {
        if i < |p| - 1 {
          assert q[i] == p[i];
        } else {
          assert p[0][..l][k] == last[..l][k];
        }
      }
      if n == m {
        if m != |q[0]| {
          var i :| 1 <= i < |q| && (m == |q[i]| || q[i][m] != q[0][m]);
          assert q[i] == p[i];
        }
      }
    }
  }

  /** The nested loop of the source, with its early return.  The source
      asserts that there are at least two paths. */
  method FindCommonPrefixLength(p: seq<string>) returns (n: nat)
    requires |p| > 1
    ensures forall i :: 0 <= i < |p| ==> n <= |p[i]|
    ensures forall i, k :: 0 <= i < |p| && 0 <= k < n ==> p[i][k] == p[0][k]
    ensures n == |p[0]| || exists i :: 1 <= i < |p| && (n == |p[i]| || p[i][n] != p[0][n])
    ensures n == CommonPrefixLength(p)
  {
    n := 0;
    while n < |p[0]|
      invariant n <= |p[0]|
      invariant forall i :: 0 <= i < |p| ==> n <= |p[i]|
      invariant forall i, k :: 0 <= i < |p| && 0 <= k < n ==> p[i][k] == p[0][k]
    {
      var i := 1;
      while i < |p|
        invariant 1 <= i <= |p|
        invariant forall j :: 1 <= j < i ==> n < |p[j]| && p[j][n] == p[0][n]
      {
        if n >= |p[i]| || p[i][n] != p[0][n] {
          CommonPrefixLengthCorrect(p);
          CommonPrefixLengthUnique(p, n, CommonPrefixLength(p));
          return;
        }
        i := i + 1;
      }
      n := n + 1;
    }
    CommonPrefixLengthCorrect(p);
    CommonPrefixLengthUnique(p, n, CommonPrefixLength(p));
  }
}
