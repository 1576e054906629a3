/** The fixed-size record of the private frame transport: a 40-byte header in host byte order,
    up to 1000 payload bytes, and padding up to 1300 bytes. */
module FrameRecord {
  import opened Bytes

  const RECORD := 1300
  const HEADER := 40
  const CHUNK := 1000

  /** The header fields of `struct v5_socket_data`. */
  datatype Info = Info(
    frameType: int, pts: nat, endOfFrame: int, endOfStream: int,
    len: nat, offset: int, start: int, cksum: nat)

  predicate Int32(v: int) { -TWO_31 <= v < TWO_31 }

  /** The ranges of the C types. */
  predicate Representable(i: Info) {
    && Int32(i.frameType) && i.pts < TWO_64 && Int32(i.endOfFrame) && Int32(i.endOfStream)
    && i.len < TWO_32 && Int32(i.offset) && Int32(i.start) && i.cksum < TWO_64
  }

  function Header(i: Info): (h: seq<byte>)
    requires Representable(i)
    ensures |h| == HEADER
  {
    LittleEndian(FromSigned(i.frameType), 4) + LittleEndian(i.pts, 8)
    + LittleEndian(FromSigned(i.endOfFrame), 4) + LittleEndian(FromSigned(i.endOfStream), 4)
    + LittleEndian(i.len, 4) + LittleEndian(FromSigned(i.offset), 4)
    + LittleEndian(FromSigned(i.start), 4) + LittleEndian(i.cksum, 8)
  }

  function ParseHeader(r: seq<byte>): Info
    requires |r| >= HEADER
  {
    Info(ToSigned(FromLittleEndian(r[0..4])), FromLittleEndian(r[4..12]),
         ToSigned(FromLittleEndian(r[12..16])), ToSigned(FromLittleEndian(r[16..20])),
         FromLittleEndian(r[20..24]), ToSigned(FromLittleEndian(r[24..28])),
         ToSigned(FromLittleEndian(r[28..32])), FromLittleEndian(r[32..40]))
  }

  lemma {:induction false} HeaderRoundTrip(i: Info, rest: seq<byte>)
    requires Representable(i)
    ensures ParseHeader(Header(i) + rest) == i
  {
    Widths();
    var r := Header(i) + rest;
    assert r[0..4] == LittleEndian(FromSigned(i.frameType), 4);
    assert r[4..12] == LittleEndian(i.pts, 8);
    assert r[12..16] == LittleEndian(FromSigned(i.endOfFrame), 4);
    assert r[16..20] == LittleEndian(FromSigned(i.endOfStream), 4);
    assert r[20..24] == LittleEndian(i.len, 4);
    assert r[24..28] == LittleEndian(FromSigned(i.offset), 4);
    assert r[28..32] == LittleEndian(FromSigned(i.start), 4);
    assert r[32..40] == LittleEndian(i.cksum, 8);
    LittleEndianRoundTrip(FromSigned(i.frameType), 4);
    LittleEndianRoundTrip(i.pts, 8);
    LittleEndianRoundTrip(FromSigned(i.endOfFrame), 4);
    LittleEndianRoundTrip(FromSigned(i.endOfStream), 4);
    LittleEndianRoundTrip(i.len, 4);
    LittleEndianRoundTrip(FromSigned(i.offset), 4);
    LittleEndianRoundTrip(FromSigned(i.start), 4);
    LittleEndianRoundTrip(i.cksum, 8);
  }

  /** What a record carries. */
  datatype Packet = Packet(info: Info, payload: seq<byte>) {
    /** A packet as the sender builds it: `offset` is the payload's length. */
    predicate Sendable() {
      Representable(info) && |payload| <= CHUNK && info.offset == |payload|
    }
  }

  /** A record: header, payload, and whatever the send buffer held beyond it. */
  function Record(p: Packet, buf: seq<byte>): (r: seq<byte>)
    requires p.Sendable() && |buf| == RECORD
    ensures |r| == RECORD
  {
    Header(p.info) + p.payload + buf[HEADER + |p.payload|..]
  }

  lemma {:induction false} HeaderLayout(i: Info)
    requires Representable(i)
    ensures var h := Header(i);
            && Word(h, 0) == i.frameType % TWO_32 && Word(h, 4) + TWO_32 * Word(h, 8) == i.pts
            && Word(h, 12) == i.endOfFrame % TWO_32 && Word(h, 16) == i.endOfStream % TWO_32
            && Word(h, 20) == i.len && Word(h, 24) == i.offset % TWO_32 && Word(h, 28) == i.start % TWO_32
            && Word(h, 32) + TWO_32 * Word(h, 36) == i.cksum
  {
    hide LittleEndian, FromSigned;
    SignedWord(i.frameType);
    LittleWords(i.pts, 8);
    SignedWord(i.endOfFrame);
    SignedWord(i.endOfStream);
    LittleWords(i.len, 4);
    SignedWord(i.offset);
    SignedWord(i.start);
    LittleWords(i.cksum, 8);
  }

  /** Where the fields of the C struct lie in a record: host byte order, two's complement, and the
      payload behind them. */
  lemma {:induction false} Layout(p: Packet, buf: seq<byte>)
    requires p.Sendable() && |buf| == RECORD
    ensures var r, i := Record(p, buf), p.info;
            && Word(r, 0) == i.frameType % TWO_32 && Word(r, 4) + TWO_32 * Word(r, 8) == i.pts
            && Word(r, 12) == i.endOfFrame % TWO_32 && Word(r, 16) == i.endOfStream % TWO_32
            && Word(r, 20) == i.len && Word(r, 24) == i.offset && Word(r, 28) == i.start % TWO_32
            && Word(r, 32) + TWO_32 * Word(r, 36) == i.cksum
            && r[40..40 + |p.payload|] == p.payload
  {
    hide Header, Word;
    var h, x := Header(p.info), p.payload + buf[HEADER + |p.payload|..];
    HeaderLayout(p.info);
    assert Record(p, buf) == h + x;
    forall k | 0 <= k <= HEADER - 4 ensures Word(h + x, k) == Word(h, k) {
      WordInFront(h, x, k);
    }
  }

  /** The receiver's view of a record; no payload is copied when `offset` is out of range. */
  function Parse(r: seq<byte>): (p: Packet)
    requires |r| == RECORD
    ensures |p.payload| == if 0 <= p.info.offset <= CHUNK then p.info.offset else 0
  {
    var i := ParseHeader(r);
    Packet(i, if 0 <= i.offset <= CHUNK then r[HEADER..HEADER + i.offset] else [])
  }

  /** The receiver reads back what was sent, whatever the padding. */
  lemma {:induction false} RecordRoundTrip(p: Packet, buf: seq<byte>)
    requires p.Sendable() && |buf| == RECORD
    ensures Parse(Record(p, buf)) == p
  {
    var rest := p.payload + buf[HEADER + |p.payload|..];
    assert Record(p, buf) == Header(p.info) + rest;
    HeaderRoundTrip(p.info, rest);
    assert Record(p, buf)[HEADER..HEADER + |p.payload|] == p.payload;
  }

  /** A stream cut into records; an incomplete last record is left out. */
  function Records(stream: seq<byte>): (rs: seq<seq<byte>>)
    ensures forall r | r in rs :: |r| == RECORD
  {
    if |stream| < RECORD then [] else [stream[..RECORD]] + Records(stream[RECORD..])
  }

  function Tail(stream: seq<byte>): (t: seq<byte>)
    ensures |t| < RECORD
  {
    if |stream| < RECORD then stream else Tail(stream[RECORD..])
  }

  function ParseAll(rs: seq<seq<byte>>): (ps: seq<Packet>)
    requires forall r | r in rs :: |r| == RECORD
    ensures |ps| == |rs| && forall k | 0 <= k < |rs| :: ps[k] == Parse(rs[k])
  {
    seq(|rs|, k requires 0 <= k < |rs| => assert rs[k] in rs; Parse(rs[k]))
  }

  /** The packets are as Parse yields them: the payload has the length in the header. */
  predicate Parsed(ps: seq<Packet>) {
    forall k | 0 <= k < |ps| :: |ps[k].payload| == if 0 <= ps[k].info.offset <= CHUNK then ps[k].info.offset else 0
  }

  /** The packets a stream carries. */
  function Packets(stream: seq<byte>): (ps: seq<Packet>)
    ensures Parsed(ps)
  {
    ParseAll(Records(stream))
  }

  /** Records are recovered from both sides of a cut at a record boundary. */
  lemma {:induction false} RecordsConcat(a: seq<byte>, b: seq<byte>)
    requires Tail(a) == []
    ensures Records(a + b) == Records(a) + Records(b) && Tail(a + b) == Tail(b)
    decreases |a|
  {
    if a == [] {
      assert a + b == b;
    } else {
      assert (a + b)[..RECORD] == a[..RECORD];
      assert (a + b)[RECORD..] == a[RECORD..] + b;
      RecordsConcat(a[RECORD..], b);
    }
  }

  lemma {:induction false} PacketsConcat(a: seq<byte>, b: seq<byte>)
    requires Tail(a) == []
    ensures Packets(a + b) == Packets(a) + Packets(b) && Tail(a + b) == Tail(b)
  {
    hide Parsed, Parse;
    RecordsConcat(a, b);
  }
}
