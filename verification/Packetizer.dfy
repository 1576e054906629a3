/** Fragmentation of H.264 and H.265 NAL units into RTP payloads (FU-A of section 5.8 of RFC 6184,
    FU of section 4.4.3 of RFC 7798), and a receiver that reassembles them. */
module Packetizer {
  import opened Bytes
  import opened RtpPacket

  datatype Codec = H264 | H265 {
    /** Bytes of NAL header that the fragments repeat. */
    function HeaderLen(): (n: nat)
      ensures n == 1 || n == 2
    {
      if H264? then 1 else 2
    }

    /** Fragment bytes that fit beside the FU prefix: 1418 or 1417. */
    function Room(): (n: nat)
      ensures n == MAX_PAYLOAD - HeaderLen() - 1
    {
      if H264? then 1418 else 1417
    }

    function FuType(): nat { if H264? then 28 else 49 }

    function UnitType(b: byte): (t: nat)
      ensures t < 64
    {
      if H264? then b % 32 else b / 2 % 64
    }

    /** The first octet of the NAL header with the unit type replaced by the FU type. */
    function Indicator(b: byte): byte {
      if H264? then b / 32 * 32 + 28 else b / 128 * 128 + b % 2 + 98
    }

    /** The fragment's prefix: the NAL header with the FU type, and the FU header. */
    function Prefix(nal: seq<byte>, first: bool, last: bool): (s: seq<byte>)
      requires |nal| >= HeaderLen()
      ensures |s| == HeaderLen() + 1
    {
      var bits := (if first then 128 else 0) + (if last then 64 else 0) + UnitType(nal[0]);
      if H264? then [Indicator(nal[0]), bits] else [Indicator(nal[0]), nal[1], bits]
    }
  }

  /** The bit masks of the C++ sources are the quotients and remainders used here. */
  lemma {:induction false} MasksAreArithmetic(b: bv8)
    ensures (b & 0xE0) | 28 == b / 32 * 32 + 28
    ensures 0x80 | (b & 0x1F) == 128 + b % 32
    ensures (b & 0x81) | (49 << 1) == b / 128 * 128 + b % 2 + 98
    ensures 0x80 | ((b & 0x7E) >> 1) == 128 + b / 2 % 64
    ensures b & !0x80 == b % 128
    ensures b / 64 % 2 == 0 ==> b | 0x40 == b + 64
  {
  }

  // -- What a frame becomes ---------------------------------------------------------------

  function Fragments(codec: Codec, n: nat): (k: nat)
    requires n > MAX_PAYLOAD
    ensures k >= 2
    ensures codec.Room() * (k - 1) < n - codec.HeaderLen() <= codec.Room() * k
  {
    (n - codec.HeaderLen() + codec.Room() - 1) / codec.Room()
  }

  function BodyEnd(codec: Codec, n: nat, k: nat): (e: nat)
    requires n > MAX_PAYLOAD && k < Fragments(codec, n)
    ensures codec.HeaderLen() + codec.Room() * k < e <= codec.HeaderLen() + codec.Room() * (k + 1)
    ensures e == if k == Fragments(codec, n) - 1 then n else codec.HeaderLen() + codec.Room() * (k + 1)
  {
    if k == Fragments(codec, n) - 1 then n else codec.HeaderLen() + codec.Room() * (k + 1)
  }

  function Body(codec: Codec, nal: seq<byte>, k: nat): (s: seq<byte>)
    requires |nal| > MAX_PAYLOAD && k < Fragments(codec, |nal|)
    ensures 0 < |s| <= codec.Room()
  {
    nal[codec.HeaderLen() + codec.Room() * k..BodyEnd(codec, |nal|, k)]
  }

  function Fragment(codec: Codec, nal: seq<byte>, k: nat): (s: seq<byte>)
    requires |nal| > MAX_PAYLOAD && k < Fragments(codec, |nal|)
    ensures codec.HeaderLen() + 1 < |s| <= MAX_PAYLOAD
  {
    codec.Prefix(nal, k == 0, k == Fragments(codec, |nal|) - 1) + Body(codec, nal, k)
  }

  /** The RTP payloads of one frame, in the order they are offered. */
  function Payloads(codec: Codec, nal: seq<byte>): (ps: seq<seq<byte>>)
    ensures |ps| >= 1 && forall k | 0 <= k < |ps| :: |ps[k]| <= MAX_PAYLOAD
    ensures |nal| <= MAX_PAYLOAD ==> ps == [nal]
    ensures |nal| > MAX_PAYLOAD ==>
      |ps| == Fragments(codec, |nal|) && forall k | 0 <= k < |ps| :: ps[k] == Fragment(codec, nal, k)
  {
    if |nal| <= MAX_PAYLOAD then [nal]
    else seq(Fragments(codec, |nal|), k requires 0 <= k < Fragments(codec, |nal|) => Fragment(codec, nal, k))
  }

  // -- Reading a payload back -------------------------------------------------------------

  datatype Piece =
    | Single(nal: seq<byte>)
    | Part(first: bool, last: bool, header: seq<byte>, body: seq<byte>)

  function Classify(codec: Codec, p: seq<byte>): Piece {
    var h := codec.HeaderLen();
    if |p| <= h || codec.UnitType(p[0]) != codec.FuType() then Single(p)
    else Part(p[h] / 128 == 1, p[h] / 64 % 2 == 1, RestoredHeader(codec, p), p[h + 1..])
  }

  function RestoredHeader(codec: Codec, p: seq<byte>): (s: seq<byte>)
    requires |p| > codec.HeaderLen()
    ensures |s| == codec.HeaderLen()
  {
    if codec.H264? then [p[0] / 32 * 32 + p[1] % 32]
    else [p[0] / 128 * 128 + p[2] % 64 * 2 + p[0] % 2, p[1]]
  }

  lemma {:induction false} FuHeaderBits(first: bool, last: bool, t: nat)
    requires t < 64
    ensures var bits := (if first then 128 else 0) + (if last then 64 else 0) + t;
            && (bits / 128 == 1 <==> first) && (bits / 64 % 2 == 1 <==> last)
            && bits % 64 == t && (t < 32 ==> bits % 32 == t && bits / 32 % 2 == 0)
  {
  }

  lemma {:induction false} IndicatorReads(b: byte)
    ensures var i := H264.Indicator(b); i % 32 == 28 && i / 32 * 32 + H264.UnitType(b) == b
    ensures var i := H265.Indicator(b);
            i / 2 % 64 == 49 && i / 128 * 128 + H265.UnitType(b) * 2 + i % 2 == b
  {
    var i := H265.Indicator(b);
    assert i / 128 == b / 128 && i % 2 == b % 2;
  }

  lemma {:induction false} PrefixReads(codec: Codec, nal: seq<byte>, first: bool, last: bool, body: seq<byte>)
    requires |nal| >= codec.HeaderLen()
    ensures Classify(codec, codec.Prefix(nal, first, last) + body)
      == Part(first, last, nal[..codec.HeaderLen()], body)
  {
    hide Codec.Indicator;
    var h := codec.HeaderLen();
    var p := codec.Prefix(nal, first, last) + body;
    IndicatorReads(nal[0]);
    FuHeaderBits(first, last, codec.UnitType(nal[0]));
    assert p[h + 1..] == body;
    assert p[h] == (if first then 128 else 0) + (if last then 64 else 0) + codec.UnitType(nal[0]);
    assert RestoredHeader(codec, p)[0] == nal[0];
    assert RestoredHeader(codec, p) == nal[..h];
  }

  /** The bits of the FU octets: forbidden bit, NRI, layer and TID are those of the NAL unit, the type
      is that of a fragmentation unit, and the FU header is the start bit, the end bit and the type of
      the NAL unit; the reserved bit of H.264 is 0. */
  lemma {:induction false} FuOctets(nal: seq<byte>, k: nat)
    requires |nal| > MAX_PAYLOAD
    ensures k < Fragments(H264, |nal|) ==>
      var p := Fragment(H264, nal, k);
      && p[0] / 32 == nal[0] / 32 && p[0] % 32 == 28
      && (p[1] / 128 == 1 <==> k == 0) && (p[1] / 64 % 2 == 1 <==> k == Fragments(H264, |nal|) - 1)
      && p[1] / 32 % 2 == 0 && p[1] % 32 == nal[0] % 32
    ensures k < Fragments(H265, |nal|) ==>
      var p := Fragment(H265, nal, k);
      && p[0] / 128 == nal[0] / 128 && p[0] / 2 % 64 == 49 && p[0] % 2 == nal[0] % 2 && p[1] == nal[1]
      && (p[2] / 128 == 1 <==> k == 0) && (p[2] / 64 % 2 == 1 <==> k == Fragments(H265, |nal|) - 1)
      && p[2] % 64 == nal[0] / 2 % 64
  {
    hide Fragments, Body, Codec.Indicator;
    IndicatorBits(nal[0]);
    if k < Fragments(H264, |nal|) {
      FuHeaderBits(k == 0, k == Fragments(H264, |nal|) - 1, nal[0] % 32);
    }
    if k < Fragments(H265, |nal|) {
      FuHeaderBits(k == 0, k == Fragments(H265, |nal|) - 1, nal[0] / 2 % 64);
    }
  }

  lemma {:induction false} IndicatorBits(b: byte)
    ensures var i := H264.Indicator(b); i / 32 == b / 32 && i % 32 == 28
    ensures var i := H265.Indicator(b); i / 128 == b / 128 && i / 2 % 64 == 49 && i % 2 == b % 2
  {
  }

  /** The bodies are the NAL unit behind its header, cut in order. */
  lemma {:induction false} BodiesFollow(codec: Codec, nal: seq<byte>, k: nat)
    requires |nal| > MAX_PAYLOAD && k <= Fragments(codec, |nal|)
    ensures Bodies(codec, nal, k)
      == nal[codec.HeaderLen()..if k == 0 then codec.HeaderLen() else BodyEnd(codec, |nal|, k - 1)]
    ensures k == Fragments(codec, |nal|) ==> Bodies(codec, nal, k) == nal[codec.HeaderLen()..]
  {
    hide Fragments, Codec.Prefix, Body, BodyEnd;
    if k > 0 {
      BodiesFollow(codec, nal, k - 1);
      BodyOf(codec, nal, k - 1);
    }
  }

  lemma {:induction false} BodyOf(codec: Codec, nal: seq<byte>, k: nat)
    requires |nal| > MAX_PAYLOAD && k < Fragments(codec, |nal|)
    ensures var from := if k == 0 then codec.HeaderLen() else BodyEnd(codec, |nal|, k - 1);
            && codec.HeaderLen() <= from <= BodyEnd(codec, |nal|, k) <= |nal|
            && Fragment(codec, nal, k)[codec.HeaderLen() + 1..] == nal[from..BodyEnd(codec, |nal|, k)]
  {
    hide Fragments, Codec.Prefix;
  }

  function Bodies(codec: Codec, nal: seq<byte>, k: nat): seq<byte>
    requires |nal| > MAX_PAYLOAD && k <= Fragments(codec, |nal|)
  {
    if k == 0 then [] else Bodies(codec, nal, k - 1) + Fragment(codec, nal, k - 1)[codec.HeaderLen() + 1..]
  }

  /** Every fragment shows its place, and carries the whole NAL header (with F bit, layer and TID). */
  lemma {:induction false} FragmentReads(codec: Codec, nal: seq<byte>, k: nat)
    requires |nal| > MAX_PAYLOAD && k < Fragments(codec, |nal|)
    ensures Classify(codec, Fragment(codec, nal, k))
      == Part(k == 0, k == Fragments(codec, |nal|) - 1, nal[..codec.HeaderLen()], Body(codec, nal, k))
  {
    PrefixReads(codec, nal, k == 0, k == Fragments(codec, |nal|) - 1, Body(codec, nal, k));
  }

  /** A frame sent in one packet that a receiver takes for a fragment. */
  predicate Ambiguous(codec: Codec, nal: seq<byte>) {
    codec.HeaderLen() < |nal| <= MAX_PAYLOAD && codec.UnitType(nal[0]) == codec.FuType()
  }

  // -- The size claims --------------------------------------------------------------------

  function TotalLength(ps: seq<seq<byte>>): nat {
    if ps == [] then 0 else TotalLength(ps[..|ps| - 1]) + |ps[|ps| - 1]|
  }

  lemma {:induction false} PayloadSize(codec: Codec, nal: seq<byte>, k: nat)
    requires |nal| > MAX_PAYLOAD && k < Fragments(codec, |nal|)
    ensures |Payloads(codec, nal)[k]|
      == BodyEnd(codec, |nal|, k) - (codec.HeaderLen() + codec.Room() * k) + codec.HeaderLen() + 1
    ensures k > 0 ==> BodyEnd(codec, |nal|, k - 1) == codec.HeaderLen() + codec.Room() * k
  {
    hide Codec.Prefix, Fragments;
  }

  lemma {:induction false} PayloadSizes(codec: Codec, nal: seq<byte>, k: nat)
    requires |nal| > MAX_PAYLOAD && 0 < k <= Fragments(codec, |nal|)
    ensures TotalLength(Payloads(codec, nal)[..k])
      == BodyEnd(codec, |nal|, k - 1) - codec.HeaderLen() + (codec.HeaderLen() + 1) * k
  {
    hide Payloads, Fragments, BodyEnd, Fragment, Body;
    var ps := Payloads(codec, nal);
    assert ps[..k][..k - 1] == ps[..k - 1];
    PayloadSize(codec, nal, k - 1);
    if k > 1 {
      PayloadSizes(codec, nal, k - 1);
    } else {
      assert ps[..0] == [];
    }
  }

  /** Fragmenting costs one prefix per fragment and nothing else. */
  lemma {:induction false} PayloadTotal(codec: Codec, nal: seq<byte>)
    requires |nal| > MAX_PAYLOAD
    ensures TotalLength(Payloads(codec, nal))
      == |nal| - codec.HeaderLen() + (codec.HeaderLen() + 1) * Fragments(codec, |nal|)
  {
    var n := Fragments(codec, |nal|);
    PayloadSizes(codec, nal, n);
    assert Payloads(codec, nal)[..n] == Payloads(codec, nal);
  }
}
