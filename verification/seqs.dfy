/**
 * Sequences of sequences laid end to end: how the drivers' output streams
 * grow block by block (a candidate list per search, the calls per step).
 */
module Seqs {

  /** The blocks of `xss` concatenated in order. */
  function Join<T>(xss: seq<seq<T>>): seq<T>
    decreases |xss|
  {
    if xss == [] then [] else Join(xss[..|xss| - 1]) + xss[|xss| - 1]
  }

  /** Appending a block appends its elements. */
  lemma JoinSnoc<T>(xss: seq<seq<T>>, xs: seq<T>)
    ensures Join(xss + [xs]) == Join(xss) + xs
  {
    assert (xss + [xs])[..|xss|] == xss;
  }

  /** Blocks of `k` elements each: block `j` sits at positions `k*j` to `k*j + k`. */
  lemma {:induction false} JoinUniform<T>(xss: seq<seq<T>>, k: nat)
    requires forall j :: 0 <= j < |xss| ==> |xss[j]| == k
    ensures |Join(xss)| == k * |xss|
    ensures forall j :: 0 <= j < |xss| ==> k * j + k <= |Join(xss)| && Join(xss)[k * j..k * j + k] == xss[j]
    decreases |xss|
  {
    if xss != [] {
      var n := |xss|;
      var prior := xss[..n - 1];
      JoinUniform(prior, k);
      var all := Join(xss);
      assert all == Join(prior) + xss[n - 1];
      assert k * n == k * (n - 1) + k;
      forall j | 0 <= j < n
        ensures k * j + k <= |all| && all[k * j..k * j + k] == xss[j]
      {
        if j < n - 1 {
          assert k * j + k == k * (j + 1);
          MulLe(j + 1, n - 1, k);
          assert all[k * j..k * j + k] == Join(prior)[k * j..k * j + k];
          assert prior[j] == xss[j];
        } else {
          assert k * j == |Join(prior)|;
        }
      }
    }
  }

  lemma MulLe(a: nat, b: nat, k: nat)
    requires a <= b
    ensures k * a <= k * b
  {
  }

  /** Element `r` of block `b` of a sequence cut into `n` blocks of `k` is element `k * b + r` of the whole. */
  lemma InBlock<T>(s: seq<T>, k: nat, n: nat, b: nat, r: nat)
    requires |s| == k * n && b < n && r < k
    ensures k * b + k <= |s|
    ensures s[k * b + r] == s[k * b..k * b + k][r]
  {
    MulLe(b + 1, n, k);
  }

  /** Index `i` below `k * n` lies in block `i / k`, at offset `i % k`. */
  lemma DivModBlock(i: nat, k: nat, n: nat)
    requires 0 < k && i < k * n
    ensures i == k * (i / k) + i % k && i % k < k && i / k < n
  {
    if n <= i / k {
      MulLe(n, i / k, k);
      assert false;
    }
  }

  /** In a sequence that starts with `a + b`, `b` sits right after `a`. */
  lemma AfterPrefix<T>(a: seq<T>, b: seq<T>, c: seq<T>)
    requires a + b <= c
    ensures |a| + |b| <= |c|
    ensures c[|a|..|a| + |b|] == b
  {
    assert c[|a|..|a| + |b|] == (a + b)[|a|..];
  }
}
