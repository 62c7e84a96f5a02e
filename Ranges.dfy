/** Contents of a buffer range, as sequences: what the fill and copy
    algorithms leave in memory is described by these functions. */
module Ranges {

  /** `n` copies of `x`. */
  function Repeat<T>(x: T, n: nat): (r: seq<T>)
    ensures |r| == n
    ensures forall k | 0 <= k < n :: r[k] == x
  {
    seq(n, _ => x)
  }

  /** The buffer `s` with the slots `[at, at + |t|)` replaced by `t`. */
  function Overwrite<T>(s: seq<T>, at: nat, t: seq<T>): (r: seq<T>)
    requires at + |t| <= |s|
    ensures |r| == |s|
    ensures forall k | 0 <= k < |t| :: r[at + k] == t[k]
    ensures forall k | 0 <= k < |s| && !(at <= k < at + |t|) :: r[k] == s[k]
  {
    s[..at] + t + s[at + |t|..]
  }

  /** Writing one more element just after a written range extends it. */
  lemma OverwriteSnoc<T>(s: seq<T>, at: nat, t: seq<T>, v: T)
    requires at + |t| + 1 <= |s|
    ensures Overwrite(s, at, t)[at + |t| := v] == Overwrite(s, at, t + [v])
  {
    var a := Overwrite(s, at, t)[at + |t| := v];
    var b := Overwrite(s, at, t + [v]);
    forall k | 0 <= k < |s|
      ensures a[k] == b[k]
    {
      if at <= k < at + |t| {
        assert a[k] == t[k - at] == (t + [v])[k - at];
      }
    }
  }

  /** Writing one more element just before a written range extends it. */
  lemma OverwriteCons<T>(s: seq<T>, at: nat, t: seq<T>, v: T)
    requires 1 <= at && at + |t| <= |s|
    ensures Overwrite(s, at, t)[at - 1 := v] == Overwrite(s, at - 1, [v] + t)
  {
    var a := Overwrite(s, at, t)[at - 1 := v];
    var b := Overwrite(s, at - 1, [v] + t);
    forall k | 0 <= k < |s|
      ensures a[k] == b[k]
    {
      if at <= k < at + |t| {
        assert a[k] == t[k - at] == ([v] + t)[k - (at - 1)];
      }
    }
  }

  /** Two writes to adjacent ranges are one write of their concatenation:
      this is how a buffer built piece by piece (a prefix, a run of copies,
      a suffix) is described in one step. */
  lemma OverwriteAdjacent<T>(s: seq<T>, at: nat, t: seq<T>, u: seq<T>)
    requires at + |t| + |u| <= |s|
    ensures Overwrite(Overwrite(s, at, t), at + |t|, u) == Overwrite(s, at, t + u)
  {
    var m := Overwrite(s, at, t);
    var a := Overwrite(m, at + |t|, u);
    var b := Overwrite(s, at, t + u);
    forall k | 0 <= k < |s|
      ensures a[k] == b[k]
    {
      if at + |t| <= k < at + |t| + |u| {
        assert a[k] == u[k - at - |t|] == (t + u)[k - at];
      } else if at <= k < at + |t| {
        assert a[k] == m[k] == t[k - at];
      }
    }
  }

  /** Overwriting a range with what it already holds changes nothing. */
  lemma OverwriteSame<T>(s: seq<T>, at: nat, len: nat)
    requires at + len <= |s|
    ensures Overwrite(s, at, s[at..at + len]) == s
  {
    var a := Overwrite(s, at, s[at..at + len]);
    assert forall k | 0 <= k < |s| :: a[k] == s[k];
  }

  /** The written range of a buffer reads back as what was written, and the
      prefix before it is untouched. */
  lemma OverwriteSlices<T>(s: seq<T>, at: nat, t: seq<T>)
    requires at + |t| <= |s|
    ensures Overwrite(s, at, t)[at..at + |t|] == t
    ensures Overwrite(s, at, t)[..at] == s[..at]
    ensures Overwrite(s, at, t)[at + |t|..] == s[at + |t|..]
  {
  }

  /** A slice grown by one element at its front. */
  lemma SliceExtendFront<T>(s: seq<T>, lo: nat, hi: nat)
    requires 1 <= lo <= hi <= |s|
    ensures [s[lo - 1]] + s[lo..hi] == s[lo - 1..hi]
  {
  }

  /** A slice grown by one element at its back. */
  lemma SliceExtendBack<T>(s: seq<T>, lo: nat, hi: nat)
    requires lo <= hi < |s|
    ensures s[lo..hi] + [s[hi]] == s[lo..hi + 1]
  {
  }
}
