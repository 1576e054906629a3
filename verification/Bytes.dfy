/** Bytes, fixed-width integers as they are laid out in memory or on the network,
    and concatenation of packet lists. */
module Bytes {

  type byte = x: int | 0 <= x < 256

  const TWO_31 := 0x8000_0000
  const TWO_32 := 0x1_0000_0000
  const TWO_64 := 0x1_0000_0000_0000_0000

  // -- Fixed-width integers ---------------------------------------------------------------

  ghost function Pow256(n: nat): (p: nat)
    ensures p > 0
  {
    if n == 0 then 1 else 256 * Pow256(n - 1)
  }

  /** The low `n` bytes of `v`, least significant first: a memcpy of a host integer. */
  function LittleEndian(v: nat, n: nat): (s: seq<byte>)
    ensures |s| == n
  {
    if n == 0 then [] else [v % 256] + LittleEndian(v / 256, n - 1)
  }

  function FromLittleEndian(s: seq<byte>): nat {
    if s == [] then 0 else s[0] + 256 * FromLittleEndian(s[1..])
  }

  /** The low `n` bytes of `v`, most significant first: network byte order. */
  function BigEndian(v: nat, n: nat): (s: seq<byte>)
    ensures |s| == n
  {
    if n == 0 then [] else BigEndian(v / 256, n - 1) + [v % 256]
  }

  function FromBigEndian(s: seq<byte>): nat {
    if s == [] then 0 else 256 * FromBigEndian(s[..|s| - 1]) + s[|s| - 1]
  }

  lemma {:induction false} LittleEndianRoundTrip(v: nat, n: nat)
    requires v < Pow256(n)
    ensures FromLittleEndian(LittleEndian(v, n)) == v
  {
    if n > 0 {
      LittleEndianRoundTrip(v / 256, n - 1);
      assert LittleEndian(v, n)[1..] == LittleEndian(v / 256, n - 1);
    }
  }

  /** Four bytes from `k` on as a number, the first one lowest. */
  function Word(s: seq<byte>, k: nat): nat
    requires k + 4 <= |s|
  {
    s[k] as int + 0x100 * (s[k + 1] as int) + 0x1_0000 * (s[k + 2] as int) + 0x100_0000 * (s[k + 3] as int)
  }

  lemma {:induction false} WordInFront(a: seq<byte>, b: seq<byte>, k: nat)
    requires k + 4 <= |a|
    ensures Word(a + b, k) == Word(a, k)
  {
  }

  lemma {:induction false} FourBytes(b: seq<byte>)
    requires |b| == 4
    ensures FromLittleEndian(b) == Word(b, 0)
  {
    assert FromLittleEndian(b) == b[0] + 256 * FromLittleEndian(b[1..]);
    assert FromLittleEndian(b[1..]) == b[1] + 256 * FromLittleEndian(b[1..][1..]);
    assert FromLittleEndian(b[1..][1..]) == b[2] + 256 * FromLittleEndian(b[1..][1..][1..]);
    assert FromLittleEndian(b[1..][1..][1..]) == b[3] + 256 * FromLittleEndian(b[1..][1..][1..][1..]);
    assert b[1..][1..][1..][1..] == [];
  }

  lemma {:induction false} LittleEndianConcat(a: seq<byte>, b: seq<byte>)
    ensures FromLittleEndian(a + b) == FromLittleEndian(a) + Pow256(|a|) * FromLittleEndian(b)
  {
    if a == [] {
      assert a + b == b;
    } else {
      assert (a + b)[1..] == a[1..] + b;
      LittleEndianConcat(a[1..], b);
      assert Pow256(|a|) == 256 * Pow256(|a| - 1);
      Distributes(Pow256(|a| - 1), FromLittleEndian(b));
    }
  }

  lemma {:induction false} Distributes(p: nat, v: nat)
    ensures 256 * (p * v) == (256 * p) * v
  {
  }

  /** Where the bytes of a host integer of four or eight bytes lie. */
  lemma {:induction false} LittleWords(v: nat, n: nat)
    requires (n == 4 && v < TWO_32) || (n == 8 && v < TWO_64)
    ensures var b := LittleEndian(v, n);
            v == if n == 4 then Word(b, 0) else Word(b, 0) + TWO_32 * Word(b, 4)
  {
    var b := LittleEndian(v, n);
    Widths();
    LittleEndianRoundTrip(v, n);
    if n == 4 {
      FourBytes(b);
    } else {
      assert b == b[..4] + b[4..];
      LittleEndianConcat(b[..4], b[4..]);
      FourBytes(b[..4]);
      FourBytes(b[4..]);
    }
  }

  /** ... and of a signed one: two's complement. */
  lemma {:induction false} SignedWord(v: int)
    requires -TWO_31 <= v < TWO_31
    ensures Word(LittleEndian(FromSigned(v), 4), 0) == v % TWO_32
  {
    LittleWords(FromSigned(v), 4);
  }

  lemma {:induction false} BigEndianRoundTrip(v: nat, n: nat)
    requires v < Pow256(n)
    ensures FromBigEndian(BigEndian(v, n)) == v
  {
    if n > 0 {
      BigEndianRoundTrip(v / 256, n - 1);
      assert BigEndian(v, n)[..n - 1] == BigEndian(v / 256, n - 1);
    }
  }

  lemma {:induction false} Widths()
    ensures Pow256(2) == 0x1_0000 && Pow256(4) == TWO_32 && Pow256(8) == TWO_64
  {
    assert Pow256(1) == 256 * Pow256(0);
    assert Pow256(2) == 256 * Pow256(1);
    assert Pow256(3) == 256 * Pow256(2);
    assert Pow256(4) == 256 * Pow256(3);
    assert Pow256(5) == 256 * Pow256(4);
    assert Pow256(6) == 256 * Pow256(5);
    assert Pow256(7) == 256 * Pow256(6);
    assert Pow256(8) == 256 * Pow256(7);
  }

  /** Two's complement of a 32-bit signed integer, and back. */
  function FromSigned(v: int): nat
    requires -TWO_31 <= v < TWO_31
  {
    if v < 0 then v + TWO_32 else v
  }

  function ToSigned(u: nat): (v: int)
  {
    if u < TWO_31 then u else u - TWO_32
  }

  // -- Packet lists -----------------------------------------------------------------------

  function Flatten(ss: seq<seq<byte>>): seq<byte> {
    if ss == [] then [] else ss[0] + Flatten(ss[1..])
  }

  lemma {:induction false} FlattenConcat(a: seq<seq<byte>>, b: seq<seq<byte>>)
    ensures Flatten(a + b) == Flatten(a) + Flatten(b)
  {
    if a == [] {
      assert a + b == b;
    } else {
      assert (a + b)[1..] == a[1..] + b;
      FlattenConcat(a[1..], b);
    }
  }

  lemma {:induction false} FlattenOne(a: seq<byte>)
    ensures Flatten([a]) == a
  {
    assert Flatten([a][1..]) == [];
  }

  function Least(a: nat, b: nat): nat { if a < b then a else b }

  /** memcpy of `src` to `dst + at`, as a value. */
  function Spliced(dst: seq<byte>, at: nat, src: seq<byte>): (r: seq<byte>)
    requires at + |src| <= |dst|
    ensures |r| == |dst|
  {
    dst[..at] + src + dst[at + |src|..]
  }

  method Memcpy(dst: array<byte>, at: nat, src: seq<byte>)
    requires at + |src| <= dst.Length
    modifies dst
    ensures dst[..] == Spliced(old(dst[..]), at, src)
  {
    for i := 0 to |src|
      invariant forall k :: 0 <= k < i ==> dst[at + k] == src[k]
      invariant forall k :: 0 <= k < dst.Length && !(at <= k < at + i) ==> dst[k] == old(dst[k])
    {
      dst[at + i] := src[i];
    }
  }
}
