/** Splitting the ranked city list into the batches sent to the lookup service. */
module Chunking {

  /** The contiguous slices `s[i .. i + n]` for `i` in `range(0, |s|, n)`,
      the last one possibly shorter. */
  function Chunk<T>(s: seq<T>, n: nat): (r: seq<seq<T>>)
    requires n > 0
    ensures forall k :: 0 <= k < |r| ==> 0 < |r[k]| <= n
    decreases |s|
  {
    if |s| == 0 then []
    else if |s| <= n then [s]
    else [s[..n]] + Chunk(s[n..], n)
  }

  /** `q` chunks of at most `n` elements cover the input, and `q - 1` do not. */
  lemma {:induction false} ChunkBounds<T>(s: seq<T>, n: nat)
    requires n > 0
    ensures |Chunk(s, n)| * n >= |s|
    ensures |s| > 0 ==> (|Chunk(s, n)| - 1) * n < |s|
    decreases |s|
  {
    if |s| > n {
      var q := |Chunk(s[n..], n)|;
      ChunkBounds(s[n..], n);
      assert |Chunk(s, n)| == q + 1;
      assert (q + 1) * n == q * n + n;
    }
  }

  /** There are `ceil(|s| / n)` chunks; in particular none for an empty input. */
  lemma ChunkCount<T>(s: seq<T>, n: nat)
    requires n > 0
    ensures |Chunk(s, n)| == (|s| + n - 1) / n
  {
    var q := |Chunk(s, n)|;
    ChunkBounds(s, n);
    if |s| == 0 {
      DivUnique(n - 1, n, 0);
    } else {
      assert (q - 1) * n + n == q * n;
      DivUnique(|s| + n - 1, n, q);
    }
  }

  /** Integer division is determined by the bracket the dividend falls in. */
  lemma DivUnique(x: int, n: int, q: int)
    requires n > 0 && q * n <= x < q * n + n
    ensures x / n == q
  {
    var d, m := x / n, x % n;
    assert x == d * n + m && 0 <= m < n;
    assert (d + 1) * n == d * n + n;
    assert (q + 1) * n == q * n + n;
    MulCancel(d, q + 1, n);
    MulCancel(q, d + 1, n);
  }

  lemma MulCancel(a: int, b: int, n: int)
    requires n > 0 && a * n < b * n
    ensures a < b
  {
    assert (b - a) * n == b * n - a * n;
  }

  /** The concatenation of a list of lists, in order. */
  function Flatten<T>(ss: seq<seq<T>>): seq<T>
  {
    if ss == [] then [] else ss[0] + Flatten(ss[1..])
  }

  /** Every element of a member list is an element of the concatenation. */
  lemma {:induction false} FlattenMember<T>(ss: seq<seq<T>>, t: nat, x: T)
    requires t < |ss| && x in ss[t]
    ensures x in Flatten(ss)
  {
    if t > 0 {
      FlattenMember(ss[1..], t - 1, x);
    }
  }

  /** Joining the chunks back together gives the input, in order. */
  lemma {:induction false} ChunkFlatten<T>(s: seq<T>, n: nat)
    requires n > 0
    ensures Flatten(Chunk(s, n)) == s
    decreases |s|
  {
    if |s| == 0 {
    } else if |s| <= n {
      assert Chunk(s, n) == [s];
      assert Flatten([s]) == s + Flatten([]);
    } else {
      var r := Chunk(s, n);
      assert r == [s[..n]] + Chunk(s[n..], n);
      assert r[1..] == Chunk(s[n..], n);
      ChunkFlatten(s[n..], n);
      assert s == s[..n] + s[n..];
    }
  }

  /** Chunk number `k` is exactly the slice the source yields for the `k`-th
      start index `k * n` of `range(0, len(s), n)`. */
  lemma ChunkAt<T>(s: seq<T>, n: nat, k: nat)
    requires n > 0
    requires k < |Chunk(s, n)|
    ensures k * n < |s|
    ensures Chunk(s, n)[k] == s[k * n .. if k * n + n <= |s| then k * n + n else |s|]
  {
    ChunkAtStart(s, n, k, k * n);
  }

  /** `ChunkAt`, with the start index `start == k * n` carried along so that
      the induction only adds and subtracts `n`. */
  lemma {:induction false} ChunkAtStart<T>(s: seq<T>, n: nat, k: nat, start: nat)
    requires n > 0
    requires k < |Chunk(s, n)|
    requires start == k * n
    ensures start < |s|
    ensures Chunk(s, n)[k] == s[start .. if start + n <= |s| then start + n else |s|]
    decreases |s|
  {
    if k == 0 {
      assert start == 0;
    } else {
      var t := s[n..];
      assert Chunk(s, n) == [s[..n]] + Chunk(t, n);
      assert (k - 1) * n == start - n;
      ChunkAtStart(t, n, k - 1, start - n);
      var e := if start <= |t| then start else |t|;
      assert Chunk(t, n)[k - 1] == t[start - n .. e];
      assert t[start - n .. e] == s[start .. n + e];
    }
  }

  /** A chunk that is not the last holds exactly `n` elements. */
  lemma ChunkFull<T>(s: seq<T>, n: nat, k: nat)
    requires n > 0
    requires k + 1 < |Chunk(s, n)|
    ensures |Chunk(s, n)[k]| == n
  {
    ChunkAt(s, n, k);
    ChunkAt(s, n, k + 1);
    assert (k + 1) * n == k * n + n;
  }

  /** The last chunk holds `|s| % n` elements, or `n` when `n` divides `|s|`. */
  lemma ChunkLast<T>(s: seq<T>, n: nat)
    requires n > 0 && |s| > 0
    ensures |Chunk(s, n)[|Chunk(s, n)| - 1]| == if |s| % n == 0 then n else |s| % n
  {
    var q := |Chunk(s, n)|;
    var last := q - 1;
    ChunkBounds(s, n);
    ChunkAt(s, n, last);
    assert last * n + n == q * n;
    LastStart(|s|, n, last);
  }

  /** Every chunk but the last holds exactly `n` elements; the last holds
      `|s| % n` of them, or `n` when `n` divides `|s|`. */
  lemma ChunkSizes<T>(s: seq<T>, n: nat)
    requires n > 0
    ensures forall k :: 0 <= k < |Chunk(s, n)| - 1 ==> |Chunk(s, n)[k]| == n
    ensures |s| > 0 ==> |Chunk(s, n)[|Chunk(s, n)| - 1]| == if |s| % n == 0 then n else |s| % n
  {
    forall k | 0 <= k < |Chunk(s, n)| - 1
      ensures |Chunk(s, n)[k]| == n
    {
      ChunkFull(s, n, k);
    }
    if |s| > 0 {
      ChunkLast(s, n);
    }
  }

  /** Arithmetic behind the last chunk's size: the last of the
      `ceil(len / n)` chunks starts at `last * n`. */
  lemma LastStart(len: nat, n: nat, last: nat)
    requires n > 0 && len > 0
    requires last * n < len <= last * n + n
    ensures len - last * n == if len % n == 0 then n else len % n
  {
    var r := len - last * n;
    if r == n {
      assert len == (last + 1) * n;
      DivUnique(len, n, last + 1);
    } else {
      DivUnique(len, n, last);
    }
  }
}
