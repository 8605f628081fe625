/** App.chunk_list: consecutive slices of at most n elements. */
module Chunker {

  /** The slices chunk_list yields, in order. */
  function Chunks<T>(xs: seq<T>, n: nat): seq<seq<T>>
    requires n > 0
    decreases |xs|
  {
    if |xs| == 0 then []
    else if |xs| <= n then [xs]
    else [xs[..n]] + Chunks(xs[n..], n)
  }

  /** The slices one after the other. */
  function Flatten<T>(ss: seq<seq<T>>): seq<T>
  {
    if |ss| == 0 then [] else ss[0] + Flatten(ss[1..])
  }

  /** A cover of xs by slices of n: non-empty, at most n long, all but the last exactly n, together xs. */
  ghost predicate IsChunking<T>(xs: seq<T>, n: nat, cs: seq<seq<T>>)
  {
    && Flatten(cs) == xs
    && (forall k :: 0 <= k < |cs| ==> 0 < |cs[k]| <= n)
    && (forall k :: 0 <= k < |cs| - 1 ==> |cs[k]| == n)
  }

  /** The slices cover the list exactly, and there are ceil(|xs| / n) of them. */
  lemma {:induction false} ChunksCover<T>(xs: seq<T>, n: nat)
    requires n > 0
    ensures IsChunking(xs, n, Chunks(xs, n))
    ensures |xs| == 0 ==> |Chunks(xs, n)| == 0
    ensures |xs| > 0 ==> (|Chunks(xs, n)| - 1) * n < |xs| <= |Chunks(xs, n)| * n
    decreases |xs|
  {
    if |xs| > n {
      var rest := Chunks(xs[n..], n);
      ChunksCover(xs[n..], n);
      assert Chunks(xs, n) == [xs[..n]] + rest;
      assert Chunks(xs, n)[1..] == rest;
      assert xs == xs[..n] + xs[n..];
      assert (|rest| + 1) * n == |rest| * n + n;
    } else if |xs| > 0 {
      assert Chunks(xs, n) == [xs];
      assert Flatten([xs]) == xs + [];
    }
  }

  /** Those conditions fix the slices: any cover of xs by slices of n is Chunks(xs, n). */
  lemma {:induction false} ChunkingUnique<T>(xs: seq<T>, n: nat, cs: seq<seq<T>>)
    requires n > 0
    requires IsChunking(xs, n, cs)
    ensures cs == Chunks(xs, n)
    decreases |xs|
  {
    if |cs| > 0 {
      assert Flatten(cs) == cs[0] + Flatten(cs[1..]);
      var rest := cs[1..];
      if |cs| == 1 {
        assert Flatten(rest) == [];
        assert xs == cs[0];
      } else {
        assert |cs[0]| == n;
        assert |Flatten(rest)| > 0 by {
          assert Flatten(rest) == rest[0] + Flatten(rest[1..]);
        }
        assert xs[..n] == cs[0] && xs[n..] == Flatten(rest);
        assert IsChunking(xs[n..], n, rest) by {
          forall k | 0 <= k < |rest| ensures 0 < |rest[k]| <= n { assert rest[k] == cs[k + 1]; }
          forall k | 0 <= k < |rest| - 1 ensures |rest[k]| == n { assert rest[k] == cs[k + 1]; }
        }
        ChunkingUnique(xs[n..], n, rest);
        assert cs == [cs[0]] + rest;
      }
    }
  }

  /** App.chunk_list, collected into a sequence. */
  method ChunkList<T>(xs: seq<T>, n: nat) returns (chunks: seq<seq<T>>)
    requires n > 0
    ensures chunks == Chunks(xs, n)
  {
    chunks := [];
    var i := 0;
    while i < |xs|
      invariant chunks + Chunks(xs[if i <= |xs| then i else |xs|..], n) == Chunks(xs, n)
      decreases |xs| - i
    {
      var end := if i + n <= |xs| then i + n else |xs|;
      assert Chunks(xs[i..], n) == [xs[i..end]] + Chunks(xs[end..], n) by {
        if i + n < |xs| {
          assert xs[i..][..n] == xs[i..end];
          assert xs[i..][n..] == xs[end..];
        } else {
          assert xs[end..] == [] && Chunks(xs[end..], n) == [];
          assert xs[i..end] == xs[i..] && Chunks(xs[i..], n) == [xs[i..]];
        }
      }
      chunks := chunks + [xs[i..end]];
      i := i + n;
    }
  }
}
