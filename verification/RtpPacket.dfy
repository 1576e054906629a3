/** The 12-byte RTP header (section 5.1 of RFC 3550) and the 4-byte interleaving prefix
    (section 10.12 of RFC 2326). */
module RtpPacket {
  import opened Bytes

  const RTP_HEADER := 12
  const TCP_HEAD := 4
  const PACKET := 1500
  const MAX_PAYLOAD := 1420
  const DOLLAR := 0x24

  datatype RtpHeader = RtpHeader(marker: nat, payload: nat, seqno: nat, ts: nat, ssrc: nat) {
    predicate Valid() {
      marker < 2 && payload < 128 && seqno < 0x1_0000 && ts < TWO_32 && ssrc < TWO_32
    }

    /** The packed struct on a little-endian host: version 2, no padding, extension or CSRC. */
    function Encode(): (s: seq<byte>)
      requires Valid()
      ensures |s| == RTP_HEADER
    {
      [0x80, marker * 128 + payload] + BigEndian(seqno, 2) + BigEndian(ts, 4) + BigEndian(ssrc, 4)
    }
  }

  /** Where the fields lie: version 2 and no padding, extension or CSRC in the first octet, then marker
      and payload type, and the numbers in network order. */
  lemma {:induction false} Layout(h: RtpHeader)
    requires h.Valid()
    ensures var d := h.Encode();
            && d[0] == 0x80 && d[1] / 0x80 == h.marker && d[1] % 0x80 == h.payload
            && h.seqno == 0x100 * (d[2] as int) + d[3]
            && h.ts == NetworkWord(d, 4) && h.ssrc == NetworkWord(d, 8)
  {
    hide BigEndian;
    TwoOctets(h.seqno);
    FourOctets(h.ts);
    FourOctets(h.ssrc);
  }

  /** Four bytes from `k` on as a number, the first one highest. */
  function NetworkWord(s: seq<byte>, k: nat): nat
    requires k + 4 <= |s|
  {
    0x100_0000 * (s[k] as int) + 0x1_0000 * (s[k + 1] as int) + 0x100 * (s[k + 2] as int) + s[k + 3]
  }

  lemma {:induction false} TwoOctets(v: nat)
    ensures var d := BigEndian(v, 2); v % 0x1_0000 == 0x100 * (d[0] as int) + d[1]
  {
    assert BigEndian(v, 2) == BigEndian(v / 256, 1) + [v % 256];
    assert BigEndian(v / 256, 1) == BigEndian(v / 256 / 256, 0) + [v / 256 % 256];
    TwoDigits(v);
  }

  lemma {:induction false} TwoDigits(v: nat)
    ensures v % 0x1_0000 == 0x100 * (v / 256 % 256) + v % 256
  {
  }

  lemma {:induction false} FourOctets(v: nat)
    requires v < TWO_32
    ensures v == NetworkWord(BigEndian(v, 4), 0)
  {
    assert BigEndian(v, 4) == BigEndian(v / 256, 3) + [v % 256];
    assert BigEndian(v / 256, 3) == BigEndian(v / 256 / 256, 2) + [v / 256 % 256];
    TwoOctets(v / 256 / 256);
    TwoDigits(v);
  }

  function Decode(d: seq<byte>): RtpHeader
    requires |d| >= RTP_HEADER
  {
    RtpHeader(d[1] / 128, d[1] % 128, FromBigEndian(d[2..4]), FromBigEndian(d[4..8]), FromBigEndian(d[8..12]))
  }

  lemma {:induction false} HeaderRoundTrip(h: RtpHeader, rest: seq<byte>)
    requires h.Valid()
    ensures Decode(h.Encode() + rest) == h
    ensures (h.Encode() + rest)[RTP_HEADER..] == rest
  {
    hide BigEndian, FromBigEndian;
    Widths();
    var d := h.Encode() + rest;
    assert d[2..4] == BigEndian(h.seqno, 2);
    assert d[4..8] == BigEndian(h.ts, 4);
    assert d[8..12] == BigEndian(h.ssrc, 4);
    BigEndianRoundTrip(h.seqno, 2);
    BigEndianRoundTrip(h.ts, 4);
    BigEndianRoundTrip(h.ssrc, 4);
  }

  // -- Interleaving -----------------------------------------------------------------------

  /** '$', the channel, and the low 16 bits of the length. */
  function TcpHead(channel: nat, size: nat): (s: seq<byte>)
    ensures |s| == TCP_HEAD
  {
    [DOLLAR, channel % 256] + BigEndian(size, 2)
  }

  function Interleave(channel: nat, rtp: seq<byte>): (s: seq<byte>)
    ensures |s| == TCP_HEAD + |rtp|
  {
    TcpHead(channel, |rtp|) + rtp
  }

  /** Where the bytes of an interleaved packet lie, as section 10.12 of RFC 2326 has them. */
  lemma {:induction false} InterleavedLayout(channel: nat, rtp: seq<byte>)
    ensures var s := Interleave(channel, rtp);
            && s[0] == '$' as int && s[1] == channel % 0x100
            && 0x100 * (s[2] as int) + s[3] == |rtp| % 0x1_0000 && s[4..] == rtp
  {
    hide BigEndian;
    TwoOctets(|rtp|);
  }

  /** How a receiver finds the end of an RTSP message in front of its bytes: the length of the
      message, or 0 as long as that is not known. */
  type Framing = seq<byte> -> nat

  ghost predicate Delimited(framing: Framing, text: seq<byte>) {
    && text != [] && text[0] != DOLLAR
    && (forall rest: seq<byte> :: framing(text + rest) == |text|)
    && (forall k | 0 <= k < |text| :: framing(text[..k]) == 0)
  }

  /** What the byte stream of an RTSP connection is made of. */
  datatype Chunk = Media(channel: nat, rtp: seq<byte>) | Message(text: seq<byte>) {
    function Bytes(): seq<byte> {
      match this
      case Media(channel, rtp) => Interleave(channel, rtp)
      case Message(text) => text
    }

    ghost predicate Fits(framing: Framing) {
      match this
      case Media(channel, rtp) => channel < 256 && |rtp| < 0x1_0000
      case Message(text) => Delimited(framing, text)
    }
  }

  function InterleaveAll(cs: seq<Chunk>): seq<byte> {
    if cs == [] then [] else cs[0].Bytes() + InterleaveAll(cs[1..])
  }

  datatype Deinterleaving = Deinterleaving(chunks: seq<Chunk>, rest: seq<byte>)

  /** A receiver of interleaved packets and messages: it stops at one that is incomplete. */
  function Deinterleave(framing: Framing, s: seq<byte>): Deinterleaving
    decreases |s|
  {
    var n := SizeInFront(framing, s);
    if n == 0 || n > |s| then Deinterleaving([], s)
    else
      var tail := Deinterleave(framing, s[n..]);
      var c := if s[0] == DOLLAR then Media(s[1], s[TCP_HEAD..n]) else Message(s[..n]);
      Deinterleaving([c] + tail.chunks, tail.rest)
  }

  /** The size of the chunk in front, or 0 as long as that is not known. */
  function SizeInFront(framing: Framing, s: seq<byte>): (n: nat)
    ensures s == [] ==> n == 0
    ensures s != [] && s[0] == DOLLAR && n > 0 ==> n >= TCP_HEAD
  {
    if s == [] then 0
    else if s[0] != DOLLAR then framing(s)
    else if |s| < TCP_HEAD then 0
    else TCP_HEAD + FromBigEndian(s[2..4])
  }

  lemma {:induction false} InterleaveAllConcat(a: seq<Chunk>, b: seq<Chunk>)
    ensures InterleaveAll(a + b) == InterleaveAll(a) + InterleaveAll(b)
  {
    hide Chunk.Bytes;
    if a == [] {
      assert a + b == b;
    } else {
      assert (a + b)[1..] == a[1..] + b;
      InterleaveAllConcat(a[1..], b);
    }
  }

  /** The size of a complete chunk in front is known. */
  lemma {:induction false} FirstSize(framing: Framing, c: Chunk, rest: seq<byte>)
    requires c.Fits(framing)
    ensures SizeInFront(framing, c.Bytes() + rest) == |c.Bytes()| > 0
    ensures c.Media? ==> var s := c.Bytes() + rest; s[0] == DOLLAR && s[1] == c.channel && s[TCP_HEAD..|c.Bytes()|] == c.rtp
  {
    hide BigEndian, FromBigEndian;
    var s := c.Bytes() + rest;
    if c.Media? {
      Widths();
      BigEndianRoundTrip(|c.rtp|, 2);
      assert s[2..4] == BigEndian(|c.rtp|, 2);
    }
  }

  /** A complete chunk in front comes out. */
  lemma {:induction false} FirstComes(framing: Framing, c: Chunk, rest: seq<byte>)
    requires c.Fits(framing)
    ensures var d := Deinterleave(framing, rest);
            Deinterleave(framing, c.Bytes() + rest) == Deinterleaving([c] + d.chunks, d.rest)
  {
    hide SizeInFront, Interleave;
    FirstSize(framing, c, rest);
    assert (c.Bytes() + rest)[|c.Bytes()|..] == rest;
    assert (c.Bytes() + rest)[..|c.Bytes()|] == c.Bytes();
  }

  /** Every mix of channels and messages comes apart again, chunk by chunk. */
  lemma {:induction false} InterleavingRoundTrip(framing: Framing, cs: seq<Chunk>)
    requires forall k | 0 <= k < |cs| :: cs[k].Fits(framing)
    ensures Deinterleave(framing, InterleaveAll(cs)) == Deinterleaving(cs, [])
  {
    hide Chunk.Bytes, Chunk.Fits, SizeInFront;
    if cs == [] {
      NothingWaits(framing);
    } else {
      InterleavingRoundTrip(framing, cs[1..]);
      FirstComes(framing, cs[0], InterleaveAll(cs[1..]));
    }
  }

  /** An incomplete one is waited for. */
  lemma {:induction false} Waits(framing: Framing, c: Chunk, w: seq<byte>)
    requires c.Fits(framing) && w < c.Bytes()
    ensures Deinterleave(framing, w) == Deinterleaving([], w)
  {
    hide BigEndian, FromBigEndian;
    if c.Media? {
      Widths();
      BigEndianRoundTrip(|c.rtp|, 2);
      if |w| >= TCP_HEAD {
        assert w[2..4] == c.Bytes()[2..4] == BigEndian(|c.rtp|, 2);
      }
    } else {
      assert w == c.text[..|w|];
    }
  }

  /** Of a stream that has arrived in part, exactly the chunks that are complete come out. */
  lemma {:induction false} PrefixSplits(framing: Framing, cs: seq<Chunk>, w: seq<byte>)
    requires (forall k | 0 <= k < |cs| :: cs[k].Fits(framing)) && w <= InterleaveAll(cs)
    ensures var d := Deinterleave(framing, w);
            && d.chunks <= cs && w == InterleaveAll(d.chunks) + d.rest
            && (w == InterleaveAll(cs) ==> d == Deinterleaving(cs, []))
  {
    hide Chunk.Bytes, Deinterleave, Chunk.Fits;
    if cs == [] {
      NothingWaits(framing);
    } else {
      var c, head := cs[0], cs[0].Bytes();
      if |w| < |head| {
        assert w < head;
        Waits(framing, c, w);
      } else {
        var rest := w[|head|..];
        assert w == head + rest;
        assert rest == InterleaveAll(cs)[|head|..][..|rest|] && InterleaveAll(cs)[|head|..] == InterleaveAll(cs[1..]);
        PrefixSplits(framing, cs[1..], rest);
        FirstComes(framing, c, rest);
        var d := Deinterleave(framing, rest);
        assert ([c] + d.chunks)[1..] == d.chunks;
      }
    }
  }

  lemma {:induction false} NothingWaits(framing: Framing)
    ensures Deinterleave(framing, []) == Deinterleaving([], []) && InterleaveAll([]) == []
  {
  }

  /** The length field is what limits it: a longer packet never comes out. */
  lemma {:induction false} OnlyIfItFits(framing: Framing, channel: nat, rtp: seq<byte>)
    requires channel < 256
    ensures Deinterleave(framing, InterleaveAll([Media(channel, rtp)])) == Deinterleaving([Media(channel, rtp)], [])
            <==> |rtp| < 0x1_0000
  {
    hide BigEndian;
    var c := Media(channel, rtp);
    var s := InterleaveAll([c]);
    assert InterleaveAll([c][1..]) == [];
    if |rtp| < 0x1_0000 {
      InterleavingRoundTrip(framing, [c]);
    } else {
      TwoBytes(s[2..4]);
    }
  }

  lemma {:induction false} TwoBytes(s: seq<byte>)
    requires |s| == 2
    ensures FromBigEndian(s) < 0x1_0000
  {
    assert FromBigEndian(s[..1]) == 256 * FromBigEndian(s[..1][..0]) + s[0];
    assert FromBigEndian(s[..1][..0]) == 0;
  }

  // -- Messages that end in an empty line ---------------------------------------------------

  const EMPTY_LINE: seq<byte> := [13, 10, 13, 10]

  /** The framing of a message without a body: it ends at its first empty line. */
  function ToEmptyLine(s: seq<byte>): (n: nat) {
    if |s| < 4 then 0
    else if s[..4] == EMPTY_LINE then 4
    else if ToEmptyLine(s[1..]) == 0 then 0
    else 1 + ToEmptyLine(s[1..])
  }

  lemma {:induction false} FirstEmptyLine(text: seq<byte>, rest: seq<byte>, k: nat)
    requires ToEmptyLine(text) == |text| > 0 && k < |text|
    ensures ToEmptyLine(text + rest) == |text| && ToEmptyLine(text[..k]) == 0
  {
    assert (text + rest)[..4] == text[..4];
    if text[..4] == EMPTY_LINE {
    } else {
      assert (text + rest)[1..] == text[1..] + rest;
      FirstEmptyLine(text[1..], rest, if k == 0 then 0 else k - 1);
      if k >= 4 {
        assert text[..k][1..] == text[1..][..k - 1] && text[..k][..4] == text[..4];
      }
    }
  }

  /** A response whose only empty line is its end can be told from what follows. */
  lemma {:induction false} EmptyLineDelimits(text: seq<byte>)
    requires ToEmptyLine(text) == |text| > 0 && text[0] != DOLLAR
    ensures Delimited(ToEmptyLine, text)
  {
    forall rest: seq<byte> ensures ToEmptyLine(text + rest) == |text| {
      FirstEmptyLine(text, rest, 0);
    }
    forall k | 0 <= k < |text| ensures ToEmptyLine(text[..k]) == 0 {
      FirstEmptyLine(text, [], k);
    }
  }
}
