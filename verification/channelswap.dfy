/** The pass that turns the pixel bytes of a 24-bit bitmap from the BGR
    order on disk into RGB and back (host/tools/bitmap.c, lines 100-104, and
    the same loop at lines 139-143): within every triplet of bytes the first
    and the third change places. */
module ChannelSwap {
  import opened LittleEndian

  /** The index of the first byte of triplet k, the value of `imageIdx` in
      the k-th iteration of the loop. */
  function At(k: nat): nat
  {
    3 * k
  }

  /** `r` is `s` with the first and third byte of every triplet exchanged and
      the middle byte kept. */
  ghost predicate Swapped(s: seq<Byte>, r: seq<Byte>)
  {
    && |r| == |s|
    && forall k: nat | At(k) + 2 < |s| ::
         r[At(k)] == s[At(k) + 2] && r[At(k) + 1] == s[At(k) + 1] && r[At(k) + 2] == s[At(k)]
  }

  /** Two buffers of whole triplets that agree on every triplet are equal. */
  lemma SameTriplets(q: seq<Byte>, s: seq<Byte>)
    requires |q| == |s| && |s| % 3 == 0
    requires forall k: nat | At(k) + 2 < |s| ::
               q[At(k)] == s[At(k)] && q[At(k) + 1] == s[At(k) + 1] && q[At(k) + 2] == s[At(k) + 2]
    ensures q == s
  {
    forall i | 0 <= i < |s|
      ensures q[i] == s[i]
    {
      var k := i / 3;
      assert At(k) + 2 < |s|;
      assert i == At(k) || i == At(k) + 1 || i == At(k) + 2;
    }
  }

  /** The swap pass over a buffer made of whole triplets. */
  function SwapRB(s: seq<Byte>): (r: seq<Byte>)
    requires |s| % 3 == 0
    ensures Swapped(s, r)
  {
    if |s| == 0 then []
    else
      var t := SwapRB(s[3..]);
      SwapCons(s, t);
      [s[2], s[1], s[0]] + t
  }

  /** Swapping the first triplet in front of the swapped rest swaps the whole. */
  lemma SwapCons(s: seq<Byte>, t: seq<Byte>)
    requires |s| >= 3 && Swapped(s[3..], t)
    ensures Swapped(s, [s[2], s[1], s[0]] + t)
  {
    var r := [s[2], s[1], s[0]] + t;
    forall k: nat | At(k) + 2 < |s|
      ensures r[At(k)] == s[At(k) + 2] && r[At(k) + 1] == s[At(k) + 1] && r[At(k) + 2] == s[At(k)]
    {
      if k > 0 {
        var j := k - 1;
        assert At(k) == At(j) + 3;
        assert t[At(j)] == s[3..][At(j) + 2];
      }
    }
  }

  /** `SwapRB` is the only result the pass can have: a buffer swapped triplet
      by triplet is `SwapRB` of the original. */
  lemma SwappedIsSwapRB(s: seq<Byte>, r: seq<Byte>)
    requires |s| % 3 == 0 && Swapped(s, r)
    ensures r == SwapRB(s)
  {
    SameTriplets(r, SwapRB(s));
  }

  /** Swapping twice restores the buffer: the store pass undoes the load pass. */
  lemma SwapRBInvolution(s: seq<Byte>)
    requires |s| % 3 == 0
    ensures SwapRB(SwapRB(s)) == s
  {
    SameTriplets(SwapRB(SwapRB(s)), s);
  }

  /** The loop runs for imageIdx = 0, 3, 6, ... while imageIdx is below the
      size n, and reads and writes imageIdx + 2. Every such access is inside
      a buffer of n bytes exactly when n is a multiple of three. */
  lemma SwapInBounds(n: nat)
    ensures (forall k: nat | At(k) < n :: At(k) + 2 < n) <==> n % 3 == 0
  {
    if n % 3 != 0 {
      var k := n / 3;
      assert At(k) < n && At(k) + 2 >= n;
    }
  }

  /** The loop of the C code, in place. Before the iteration at `idx`, the
      triplets below it are swapped and the rest is as it was. */
  method SwapInPlace(a: array<Byte>)
    requires a.Length % 3 == 0
    modifies a
    ensures a[..] == SwapRB(old(a[..]))
  {
    ghost var s := a[..];
    var idx := 0;
    ghost var k := 0;
    while idx < a.Length
      invariant idx == At(k) <= a.Length
      invariant forall j: nat | At(j) + 2 < idx ::
                  a[At(j)] == s[At(j) + 2] && a[At(j) + 1] == s[At(j) + 1] && a[At(j) + 2] == s[At(j)]
      invariant forall i | idx <= i < a.Length :: a[i] == s[i]
    {
      var t := a[idx];
      a[idx] := a[idx + 2];
      a[idx + 2] := t;
      idx, k := idx + 3, k + 1;
    }
    SwappedIsSwapRB(s, a[..]);
  }
}
