/** The in-place pixel reorderings of cameratest. */
module PixelFormats {
  import opened Bytes

  // -- NV12 to planar YUV 4:2:0 -----------------------------------------------------------

  function Evens(uv: seq<byte>, pairs: nat): (r: seq<byte>)
    requires 2 * pairs <= |uv|
    ensures |r| == pairs && forall k | 0 <= k < pairs :: r[k] == uv[2 * k]
  {
    seq(pairs, k requires 0 <= k < pairs => uv[2 * k])
  }

  function Odds(uv: seq<byte>, pairs: nat): (r: seq<byte>)
    requires 2 * pairs <= |uv|
    ensures |r| == pairs && forall k | 0 <= k < pairs :: r[k] == uv[2 * k + 1]
  {
    seq(pairs, k requires 0 <= k < pairs => uv[2 * k + 1])
  }

  /** The chroma plane with its first `pairs` pairs taken apart. */
  function Planar(uv: seq<byte>, pairs: nat): (r: seq<byte>)
    requires 2 * pairs <= |uv|
    ensures |r| == |uv|
  {
    Evens(uv, pairs) + Odds(uv, pairs) + uv[2 * pairs..]
  }

  /** Interleaves two planes, byte by byte. */
  function Woven(us: seq<byte>, vs: seq<byte>): seq<byte>
    requires |us| == |vs|
  {
    if us == [] then [] else Woven(us[..|us| - 1], vs[..|vs| - 1]) + [us[|us| - 1], vs[|vs| - 1]]
  }

  /** Nothing is lost: interleaving the two halves gives the chroma plane back. */
  lemma {:induction false} WeavingRestores(uv: seq<byte>, pairs: nat)
    requires 2 * pairs <= |uv|
    ensures Woven(Planar(uv, pairs)[..pairs], Planar(uv, pairs)[pairs..2 * pairs]) == uv[..2 * pairs]
    ensures Planar(uv, pairs)[2 * pairs..] == uv[2 * pairs..]
  {
    assert Planar(uv, pairs)[..pairs] == Evens(uv, pairs) && Planar(uv, pairs)[pairs..2 * pairs] == Odds(uv, pairs);
    if pairs > 0 {
      WeavingRestores(uv, pairs - 1);
      assert Planar(uv, pairs - 1)[..pairs - 1] == Evens(uv, pairs)[..pairs - 1];
      assert Planar(uv, pairs - 1)[pairs - 1..2 * (pairs - 1)] == Odds(uv, pairs)[..pairs - 1];
    }
  }

  lemma {:induction false} HalvesArePermutation(uv: seq<byte>, pairs: nat)
    requires 2 * pairs <= |uv|
    ensures multiset(Evens(uv, pairs)) + multiset(Odds(uv, pairs)) == multiset(uv[..2 * pairs])
  {
    if pairs > 0 {
      var n := pairs - 1;
      HalvesArePermutation(uv, n);
      assert Evens(uv, pairs) == Evens(uv, n) + [uv[2 * n]];
      assert Odds(uv, pairs) == Odds(uv, n) + [uv[2 * n + 1]];
      assert uv[..2 * pairs] == uv[..2 * n] + [uv[2 * n], uv[2 * n + 1]];
    }
  }

  lemma {:induction false} PlanarIsPermutation(uv: seq<byte>, pairs: nat)
    requires 2 * pairs <= |uv|
    ensures multiset(Planar(uv, pairs)) == multiset(uv)
  {
    HalvesArePermutation(uv, pairs);
    assert uv == uv[..2 * pairs] + uv[2 * pairs..];
  }

  /** For every size; where a quarter of it is not whole, the bytes beyond the pairs stay. */
  method NV12ToYUV420P(nv12: array<byte>, width: nat, height: nat)
    requires width * height * 3 < TWO_31 && nv12.Length == width * height * 3 / 2
    modifies nv12
    ensures var n := width * height;
            nv12[..] == old(nv12[..n]) + Planar(old(nv12[n..]), n / 4)
  {
    var n := width * height;
    SplitChroma(nv12, nv12[..], n, n / 4);
  }

  method SplitChroma(nv12: array<byte>, save: seq<byte>, n: nat, quarter: nat)
    requires nv12[..] == save && n + 2 * quarter <= nv12.Length
    modifies nv12
    ensures nv12[..] == save[..n] + Planar(save[n..], quarter)
  {
    hide Planar;
    var u, v := n, n + 1;
    EverySecond(nv12, n, save, u, quarter);
    ghost var half := nv12[..];
    EverySecond(nv12, n + quarter, save, v, quarter);
    Planes(nv12[..], half, save, n, quarter);
  }

  /** One of the two copy loops: `count` bytes to `dst`, from every second byte of `src`. */
  method EverySecond(a: array<byte>, dst: nat, save: seq<byte>, src: nat, count: nat)
    requires dst + count <= a.Length && src + 2 * count <= |save| + 1
    modifies a
    ensures forall i | 0 <= i < count :: a[dst + i] == save[src + 2 * i]
    ensures forall k | 0 <= k < a.Length && !(dst <= k < dst + count) :: a[k] == old(a[k])
  {
    var to := dst;
    for i := 0 to count
      invariant to == dst + i
      invariant forall j | 0 <= j < i :: a[dst + j] == save[src + 2 * j]
      invariant forall k | 0 <= k < a.Length && !(dst <= k < dst + i) :: a[k] == old(a[k])
    {
      a[to] := save[src + 2 * i];
      to := to + 1;
    }
  }

  lemma {:induction false} Planes(s: seq<byte>, half: seq<byte>, save: seq<byte>, n: nat, q: nat)
    requires |s| == |half| == |save| && n + 2 * q <= |save|
    requires forall i | 0 <= i < q :: half[n + i] == save[n + 2 * i]
    requires forall k | 0 <= k < |s| && !(n <= k < n + q) :: half[k] == save[k]
    requires forall i | 0 <= i < q :: s[n + q + i] == save[n + 1 + 2 * i]
    requires forall k | 0 <= k < |s| && !(n + q <= k < n + q + q) :: s[k] == half[k]
    ensures s == save[..n] + Planar(save[n..], q)
  {
    hide Evens, Odds;
    var uv := save[n..];
    var evens, odds := Evens(uv, q), Odds(uv, q);
    forall i | 0 <= i < q ensures s[n + i] == evens[i] && s[n + q + i] == odds[i] {
      assert half[n + i] == save[n + 2 * i] == uv[2 * i];
      assert save[n + 1 + 2 * i] == uv[2 * i + 1];
    }
    var planar := evens + odds + uv[2 * q..];
    forall k | 0 <= k < |planar| ensures s[n + k] == planar[k] {
      if k < q {
        assert planar[k] == evens[k] && s[n + k] == evens[k];
      } else if k < 2 * q {
        assert planar[k] == odds[k - q] && s[n + q + (k - q)] == odds[k - q];
      } else {
        assert planar[k] == uv[2 * q..][k - 2 * q] == save[n + k];
      }
    }
    assert s[..n] == save[..n];
  }

  // -- YUYV to UYVY -----------------------------------------------------------------------

  /** Swaps the bytes of each complete pair. */
  function Swapped(s: seq<byte>): (r: seq<byte>)
    ensures |r| == |s|
    ensures forall k | 0 <= k < |s| ::
      r[k] == if k % 2 == 1 then s[k - 1] else if k + 1 < |s| then s[k + 1] else s[k]
  {
    seq(|s|, k requires 0 <= k < |s| => if k % 2 == 1 then s[k - 1] else if k + 1 < |s| then s[k + 1] else s[k])
  }

  /** For every length, odd ones included. */
  lemma {:induction false} SwappedTwice(s: seq<byte>)
    ensures Swapped(Swapped(s)) == s
  {
    var t := Swapped(Swapped(s));
    assert forall k | 0 <= k < |s| :: t[k] == s[k];
  }

  lemma {:induction false} PairSwapped(s: seq<byte>, i: nat)
    requires i % 2 == 1 && i <= |s|
    ensures i < |s| ==> Swapped(s)[i - 1] == s[i] && Swapped(s)[i] == s[i - 1]
    ensures i == |s| ==> Swapped(s)[i - 1] == s[i - 1]
  {
  }

  method YUYVToUYVY(yuyv: array<byte>)
    requires yuyv.Length < TWO_31
    modifies yuyv
    ensures yuyv[..] == Swapped(old(yuyv[..]))
  {
    hide Swapped;
    var save := yuyv[..];
    ghost var swapped := Swapped(save);
    var i, dst := 1, 0;
    while i < yuyv.Length
      invariant i % 2 == 1 && dst == i - 1 && i <= yuyv.Length + 1
      invariant forall k | 0 <= k < dst && k < yuyv.Length :: yuyv[k] == swapped[k]
      invariant forall k | dst <= k < yuyv.Length :: yuyv[k] == save[k]
    {
      PairSwapped(save, i);
      yuyv[dst] := save[i];
      dst := dst + 1;
      yuyv[dst] := save[i - 1];
      dst := dst + 1;
      i := i + 2;
    }
    if dst < yuyv.Length {
      PairSwapped(save, i);
    }
  }
}
