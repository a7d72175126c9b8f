module Sequences {

  lemma Associative<T>(a: seq<T>, b: seq<T>, c: seq<T>)
    ensures (a + b) + c == a + (b + c)
  {
  }

  /** A sequence with the element at `i` singled out. */
  lemma Around<T>(s: seq<T>, i: nat)
    requires i < |s|
    ensures s == s[..i] + ([s[i]] + s[i + 1..])
  {
  }

  lemma FourSlices<T>(a: seq<T>, b: seq<T>, c: seq<T>, d: seq<T>)
    ensures var t, i, j, k := a + b + c + d, |a|, |a| + |b|, |a| + |b| + |c|;
      t[..i] == a && t[i..j] == b && t[j..k] == c && t[k..] == d
  {
  }

  /** The first `n` parts one behind the other. */
  function Flat<T>(parts: seq<seq<T>>, n: nat): (b: seq<T>)
    requires n <= |parts|
    ensures |b| == Offset(parts, n)
  {
    if n == 0 then [] else Flat(parts, n - 1) + parts[n - 1]
  }

  /** Where the n-th part begins. */
  function Offset<T>(parts: seq<seq<T>>, n: nat): nat
    requires n <= |parts|
  {
    if n == 0 then 0 else Offset(parts, n - 1) + |parts[n - 1]|
  }

  lemma {:induction false} OffsetsGrow<T>(parts: seq<seq<T>>, k: nat, n: nat)
    requires k <= n <= |parts|
    ensures Offset(parts, k) <= Offset(parts, n)
    decreases n
  {
    if k < n {
      OffsetsGrow(parts, k, n - 1);
    }
  }

  /** Each part stands at its offset. */
  lemma {:induction false} PartAt<T>(parts: seq<seq<T>>, n: nat, k: nat)
    requires k < n <= |parts|
    ensures Offset(parts, k + 1) <= Offset(parts, n) && Flat(parts, n)[Offset(parts, k)..Offset(parts, k + 1)] == parts[k]
    decreases n
  {
    OffsetsGrow(parts, k + 1, n);
    var front, last := Flat(parts, n - 1), parts[n - 1];
    var lo, hi := Offset(parts, k), Offset(parts, k + 1);
    if k + 1 < n {
      PartAt(parts, n - 1, k);
      assert (front + last)[lo..hi] == front[lo..hi];
    } else {
      assert (front + last)[lo..hi] == last;
    }
  }

  lemma SubSlice<T>(f: seq<T>, at: nat, b: seq<T>, lo: nat, hi: nat)
    requires at + |b| <= |f| && f[at..at + |b|] == b && lo <= hi <= |b|
    ensures f[at + lo..at + hi] == b[lo..hi]
  {
    var x, y := f[at + lo..at + hi], b[lo..hi];
    assert forall j :: 0 <= j < |x| ==> x[j] == f[at..at + |b|][lo + j] == y[j];
  }
}
