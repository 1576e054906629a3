/** The packetising loops of H264Source and H265Source, feeding the session's fan-out. */
module VideoSources {
  import opened Bytes
  import opened RtpPacket
  import opened RtpState
  import opened RtpConnections
  import opened MediaSessions
  import opened Packetizer
  import opened BufferWriters

  datatype AVFrame = AVFrame(data: seq<byte>, frameType: nat, timestamp: nat) {
    /** uint32_t sizes; the loop condition adds up to 3 to the size without wrapping. */
    predicate Valid() {
      |data| < TWO_32 - 1 && timestamp < TWO_32
    }

    /** A zero timestamp is replaced by the clock. */
    function Timestamp(now: nat): nat { if timestamp == 0 then now else timestamp }
  }

  /** What a client makes of the first `n` packets of a frame. */
  function OfferedPackets(net: Network, c: Conn, ch: nat, frameType: nat, ts: nat, ps: seq<seq<byte>>, n: nat): (r: Conn)
    requires c.Valid() && ch < CHANNELS && ts < TWO_32 && n <= |ps|
    ensures r.Valid()
  {
    if n == 0 then c
    else Offered(net, OfferedPackets(net, c, ch, frameType, ts, ps, n - 1), ch, frameType,
                 if n == |ps| then 1 else 0, ts, ps[n - 1])
  }

  /** What a client makes of a frame. */
  function OfferedFrame(net: Network, c: Conn, ch: nat, codec: Codec, f: AVFrame, now: nat): (r: Conn)
    requires c.Valid() && ch < CHANNELS && f.Valid() && now < TWO_32
    ensures r.Valid()
  {
    var ps := Payloads(codec, f.data);
    OfferedPackets(net, c, ch, f.frameType, f.Timestamp(now), ps, |ps|)
  }

  /** From one snapshot to the next, every client the session reaches has been offered `n` packets,
      and no other has changed. */
  ghost predicate AllOffered(
    clients: map<int, RtpConnection?>, isMulticast: bool, before: map<int, Conn>, after: map<int, Conn>,
    ch: nat, frameType: nat, ts: nat, ps: seq<seq<byte>>, n: nat)
    requires ch < CHANNELS && ts < TWO_32 && n <= |ps|
  {
    && before.Keys == after.Keys
    && forall k | k in before ::
         && k in clients && clients[k] != null && before[k].Valid()
         && after[k] == if Reached(clients, isMulticast, k)
              then OfferedPackets(clients[k].network, before[k], ch, frameType, ts, ps, n)
              else before[k]
  }

  lemma {:induction false} OneMoreOffered(
      clients: map<int, RtpConnection?>, isMulticast: bool, before: map<int, Conn>, mid: map<int, Conn>,
      after: map<int, Conn>, ch: nat, frameType: nat, ts: nat, ps: seq<seq<byte>>, n: nat)
    requires ch < CHANNELS && ts < TWO_32 && n < |ps|
    requires AllOffered(clients, isMulticast, before, mid, ch, frameType, ts, ps, n)
    requires OfferedOnce(clients, isMulticast, mid, after, ch, frameType, if n == |ps| - 1 then 1 else 0, ts, ps[n])
    ensures AllOffered(clients, isMulticast, before, after, ch, frameType, ts, ps, n + 1)
  {
    hide Offered, Reached;
  }

  /** ... since `before`, in the current state. */
  ghost predicate OfferedSince(
    s: MediaSession, before: map<int, Conn>, ch: nat, frameType: nat, ts: nat, ps: seq<seq<byte>>, n: nat)
    requires s.Valid() && ch < CHANNELS && ts < TWO_32 && n <= |ps|
    reads s, s.Connections()
  {
    AllOffered(s.clients, s.isMulticast, before, s.Snapshot(), ch, frameType, ts, ps, n)
  }

  lemma {:induction false} NothingOffered(s: MediaSession, ch: nat, frameType: nat, ts: nat, ps: seq<seq<byte>>)
    requires s.Valid() && ch < CHANNELS && ts < TWO_32
    ensures OfferedSince(s, s.Snapshot(), ch, frameType, ts, ps, 0)
  {
  }

  /** The clients and the kind of a session are the same as before. */
  twostate predicate SameSession(s: MediaSession)
    reads s
  {
    && s.clients == old(s.clients) && s.isMulticast == old(s.isMulticast)
    && s.Connections() == old(s.Connections())
  }

  /** A new packet buffer, filled behind the 16 reserved bytes. */
  method NewPacket(prefix: seq<byte>, body: seq<byte>) returns (rtpPkt: array<byte>, size: nat)
    requires |prefix| + |body| <= MAX_PAYLOAD
    ensures fresh(rtpPkt) && TCP_HEAD + RTP_HEADER <= size <= rtpPkt.Length
    ensures rtpPkt[TCP_HEAD + RTP_HEADER..size] == prefix + body
  {
    rtpPkt := new byte[PACKET];
    Memcpy(rtpPkt, TCP_HEAD + RTP_HEADER, prefix);
    Memcpy(rtpPkt, TCP_HEAD + RTP_HEADER + |prefix|, body);
    size := TCP_HEAD + RTP_HEADER + |prefix| + |body|;
  }

  /** Fills a new packet buffer and hands it to the callback. */
  method SendPacket(
    session: MediaSession, channelId: nat, frameType: nat, prefix: seq<byte>, body: seq<byte>, last: nat, ts: nat,
    ghost before: map<int, Conn>, ghost ps: seq<seq<byte>>, ghost n: nat)
    requires session.Valid() && channelId < CHANNELS && ts < TWO_32
    requires n < |ps| && ps[n] == prefix + body && |ps[n]| <= MAX_PAYLOAD && last == if n == |ps| - 1 then 1 else 0
    requires OfferedSince(session, before, channelId, frameType, ts, ps, n)
    modifies session.Connections()
    ensures session.Valid() && SameSession(session) && (old(session.LastIntact()) ==> session.LastIntact())
    ensures OfferedSince(session, before, channelId, frameType, ts, ps, n + 1)
  {
    hide AllOffered, OfferedOnce, Stamped, ReachedKeys, MediaSession.Snapshot, MediaSession.LastIntact, MediaSession.Valid;
    ghost var mid := session.Snapshot();
    var rtpPkt, size := NewPacket(prefix, body);
    session.SendFrame(channelId, frameType, rtpPkt, size, last, ts);
    OneMoreOffered(session.clients, session.isMulticast, before, mid, session.Snapshot(),
                   channelId, frameType, ts, ps, n);
  }

  /** Where the k-th fragment lies, and when it is the last. */
  lemma {:induction false} FragmentIs(codec: Codec, nal: seq<byte>, k: nat, at: nat, size: nat)
    requires |nal| > MAX_PAYLOAD && k < |Payloads(codec, nal)|
    requires at == codec.HeaderLen() + codec.Room() * k && at + size <= |nal|
    requires size == if |nal| - at > codec.Room() then codec.Room() else |nal| - at
    ensures k == |Payloads(codec, nal)| - 1 <==> at + size == |nal|
    ensures Payloads(codec, nal)[k]
      == codec.Prefix(nal, k == 0, at + size == |nal|) + nal[at..at + size]
    ensures |Payloads(codec, nal)[k]| <= MAX_PAYLOAD
    ensures |Payloads(codec, nal)| >= 2
  {
    hide Payloads, Codec.Prefix, Fragments, BodyEnd;
  }

  lemma {:induction false} PrefixOctets(nal: seq<byte>, first: bool, last: bool)
    requires |nal| >= 2
    ensures var bits := (if first then 0x80 else 0) + (if last then 0x40 else 0);
            && H264.Prefix(nal, first, last) == [H264.Indicator(nal[0]), bits + H264.UnitType(nal[0])]
            && H265.Prefix(nal, first, last) == [H265.Indicator(nal[0]), nal[1], bits + H265.UnitType(nal[0])]
  {
  }

  function ClearBit7(b: byte): byte { b % 0x80 }

  function SetBit6(b: byte): byte { if b / 0x40 % 2 == 1 then b else b + 0x40 }

  lemma {:induction false} FuHeaderUpdates(t: nat)
    requires t < 64
    ensures ClearBit7(0x80 + t) == ClearBit7(t) == t && SetBit6(t) == 0x40 + t
  {
  }

  /** The k-th fragment of a frame: its prefix octets and the `size` bytes from `at` on. */
  method SendFragment(
    session: MediaSession, channelId: nat, frame: AVFrame, prefix: seq<byte>, at: nat, size: nat, last: nat, ts: nat,
    ghost before: map<int, Conn>, ghost codec: Codec, ghost k: nat)
    requires session.Valid() && channelId < CHANNELS && ts < TWO_32
    requires |frame.data| > MAX_PAYLOAD && at == codec.HeaderLen() + codec.Room() * k && at < |frame.data|
    requires size == if |frame.data| - at > codec.Room() then codec.Room() else |frame.data| - at
    requires prefix == codec.Prefix(frame.data, k == 0, at + size == |frame.data|)
    requires last == if at + size == |frame.data| then 1 else 0
    requires var ps := Payloads(codec, frame.data);
             k < |ps| && OfferedSince(session, before, channelId, frame.frameType, ts, ps, k)
    modifies session.Connections()
    ensures session.Valid() && SameSession(session) && (old(session.LastIntact()) ==> session.LastIntact())
    ensures var ps := Payloads(codec, frame.data);
            && OfferedSince(session, before, channelId, frame.frameType, ts, ps, k + 1)
            && (at + size == |frame.data| <==> k + 1 == |ps|)
  {
    hide OfferedSince, Payloads, Codec.Prefix, MediaSession.Valid, MediaSession.Connections;
    FragmentIs(codec, frame.data, k, at, size);
    SendPacket(session, channelId, frame.frameType, prefix, frame.data[at..at + size], last, ts,
               before, Payloads(codec, frame.data), k);
  }

  class H264Source {
    constructor () {}

    method HandleFrame(session: MediaSession, channelId: nat, frame: AVFrame, now: nat)
      requires session.Valid() && channelId < CHANNELS && frame.Valid() && now < TWO_32
      modifies session.Connections()
      ensures session.Valid() && SameSession(session) && (old(session.LastIntact()) ==> session.LastIntact())
      ensures var ps := Payloads(H264, frame.data);
              OfferedSince(session, old(session.Snapshot()), channelId, frame.frameType,
                           if frame.timestamp == 0 then now else frame.timestamp, ps, |ps|)
    {
      hide OfferedSince, Payloads, MediaSession.Snapshot, MediaSession.Valid, MediaSession.LastIntact,
           MediaSession.Connections, Codec.Prefix, Codec.Indicator, Codec.UnitType, ClearBit7, SetBit6;
      ghost var before, ps := session.Snapshot(), Payloads(H264, frame.data);
      var frameBuf, frameSize := 0, |frame.data|;
      var timestamp := if frame.timestamp == 0 then now else frame.timestamp;
      NothingOffered(session, channelId, frame.frameType, timestamp, ps);
      if frameSize <= MAX_PAYLOAD {
        assert [] + frame.data == frame.data;
        SendPacket(session, channelId, frame.frameType, [], frame.data, 1, timestamp, before, ps, 0);
        return;
      }
      var fu0 := H264.Indicator(frame.data[0]);
      var fu1 := 0x80 + H264.UnitType(frame.data[0]);
      FuHeaderUpdates(H264.UnitType(frame.data[0]));
      frameBuf := frameBuf + 1;
      frameSize := frameSize - 1;
      ghost var k := 0;
      while frameSize + 2 > MAX_PAYLOAD
        invariant 0 <= k < |ps| && frameBuf == 1 + 1418 * k && frameSize == |frame.data| - frameBuf
        invariant frameSize > 0 && (k == 0 ==> frameSize + 2 > MAX_PAYLOAD)
        invariant fu1 == (if k == 0 then 0x80 else 0) + H264.UnitType(frame.data[0])
        invariant session.Valid() && SameSession(session)
        invariant old(session.LastIntact()) ==> session.LastIntact()
        invariant OfferedSince(session, before, channelId, frame.frameType, timestamp, ps, k)
        decreases frameSize
      {
        PrefixOctets(frame.data, k == 0, false);
        SendFragment(session, channelId, frame, [fu0, fu1], frameBuf, MAX_PAYLOAD - 2, 0, timestamp, before, H264, k);
        frameBuf := frameBuf + (MAX_PAYLOAD - 2);
        frameSize := frameSize - (MAX_PAYLOAD - 2);
        fu1 := ClearBit7(fu1);
        k := k + 1;
      }
      fu1 := SetBit6(fu1);
      PrefixOctets(frame.data, false, true);
      SendFragment(session, channelId, frame, [fu0, fu1], frameBuf, frameSize, 1, timestamp, before, H264, k);
    }
  }

  class H265Source {
    constructor () {}

    method HandleFrame(session: MediaSession, channelId: nat, frame: AVFrame, now: nat)
      requires session.Valid() && channelId < CHANNELS && frame.Valid() && now < TWO_32
      modifies session.Connections()
      ensures session.Valid() && SameSession(session) && (old(session.LastIntact()) ==> session.LastIntact())
      ensures var ps := Payloads(H265, frame.data);
              OfferedSince(session, old(session.Snapshot()), channelId, frame.frameType,
                           if frame.timestamp == 0 then now else frame.timestamp, ps, |ps|)
    {
      hide OfferedSince, Payloads, MediaSession.Snapshot, MediaSession.Valid, MediaSession.LastIntact,
           MediaSession.Connections, Codec.Prefix, Codec.Indicator, Codec.UnitType, ClearBit7, SetBit6;
      ghost var before, ps := session.Snapshot(), Payloads(H265, frame.data);
      var frameBuf, frameSize := 0, |frame.data|;
      var timestamp := if frame.timestamp == 0 then now else frame.timestamp;
      NothingOffered(session, channelId, frame.frameType, timestamp, ps);
      if frameSize <= MAX_PAYLOAD {
        assert [] + frame.data == frame.data;
        SendPacket(session, channelId, frame.frameType, [], frame.data, 1, timestamp, before, ps, 0);
        return;
      }
      var nalUnitType := H265.UnitType(frame.data[0]);
      var fu0, fu1, fu2 := H265.Indicator(frame.data[0]), frame.data[1], 0x80 + nalUnitType;
      FuHeaderUpdates(nalUnitType);
      frameBuf := frameBuf + 2;
      frameSize := frameSize - 2;
      ghost var k := 0;
      while frameSize + 3 > MAX_PAYLOAD
        invariant 0 <= k < |ps| && frameBuf == 2 + 1417 * k && frameSize == |frame.data| - frameBuf
        invariant frameSize > 0 && (k == 0 ==> frameSize + 3 > MAX_PAYLOAD)
        invariant fu2 == (if k == 0 then 0x80 else 0) + nalUnitType
        invariant session.Valid() && SameSession(session)
        invariant old(session.LastIntact()) ==> session.LastIntact()
        invariant OfferedSince(session, before, channelId, frame.frameType, timestamp, ps, k)
        decreases frameSize
      {
        PrefixOctets(frame.data, k == 0, false);
        SendFragment(session, channelId, frame, [fu0, fu1, fu2], frameBuf, MAX_PAYLOAD - 3, 0, timestamp, before, H265, k);
        frameBuf := frameBuf + (MAX_PAYLOAD - 3);
        frameSize := frameSize - (MAX_PAYLOAD - 3);
        fu2 := ClearBit7(fu2);
        k := k + 1;
      }
      fu2 := SetBit6(fu2);
      PrefixOctets(frame.data, false, true);
      SendFragment(session, channelId, frame, [fu0, fu1, fu2], frameBuf, frameSize, 1, timestamp, before, H265, k);
    }
  }
}
