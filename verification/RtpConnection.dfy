/** The class RtpConnection: per-client state, header writing and sending. */
module RtpConnections {
  import opened Bytes
  import opened RtpPacket
  import opened RtpState
  import opened BufferWriters

  class RtpConnection {
    var transportMode: Transport
    var isClosed: bool
    var isGone: bool
    var isIDRFrame: bool
    /** Whether the event loop watches the socket of the RTSP connection for writing. */
    var isWriting: bool
    var frameType: nat
    var mediaChannelInfo: seq<Channel>
    /** The write queue of the RTSP connection, and everything that has been put in it. */
    ghost var stream: seq<Chunk>
    const writeBuffer: BufferWriter
    /** The outcome of each send to a socket, in order, and how many there have been. */
    const network: Network
    var attempts: nat
    ghost var sent: seq<Sent>

    ghost predicate Valid()
      reads this, writeBuffer
    {
      && |mediaChannelInfo| == CHANNELS && mediaChannelInfo[0].Valid() && mediaChannelInfo[1].Valid()
      && writeBuffer.Valid() && writeBuffer.maxQueueLength == QUEUE
    }

    /** The client with what its socket is due: the packets as they were appended. What the socket
        has really taken is `writeBuffer.wire`, which is the same as long as the client is `Intact`. */
    ghost function State(): (c: Conn)
      requires Valid()
      reads this, writeBuffer
      ensures c.Valid()
    {
      Conn(transportMode, isClosed, isGone, isIDRFrame, isWriting, mediaChannelInfo, writeBuffer.Pipe(attempts), stream,
           sent)
    }

    /** What the socket has taken, and what is queued for it, is what was appended. */
    ghost predicate Intact()
      requires Valid()
      reads this, writeBuffer, writeBuffer.Arrays()
    {
      writeBuffer.Intact()
    }

    constructor (network: Network, ts: seq<nat>, ssrc: seq<nat>)
      requires |ts| == |ssrc| == CHANNELS
      requires forall k | 0 <= k < CHANNELS :: ts[k] < TWO_32 && ssrc[k] < TWO_32
      ensures Valid() && State() == Initial(ts, ssrc) && this.network == network
      ensures fresh(writeBuffer) && Intact()
    {
      transportMode, isClosed, isGone, isIDRFrame, isWriting, frameType := NotSetUp, false, false, false, false, 0;
      mediaChannelInfo := [
        Channel(RtpHeader(0, 0, 1, ts[0], ssrc[0]), 0, NoSocket, 1, 0, 0, false, false, false),
        Channel(RtpHeader(0, 0, 1, ts[1], ssrc[1]), 0, NoSocket, 1, 0, 0, false, false, false)];
      attempts, stream, sent := 0, [], [];
      this.network := network;
      writeBuffer := new BufferWriter(QUEUE);
    }

    method SetPayloadType(channelId: nat, payload: nat)
      requires Valid() && channelId < CHANNELS
      modifies this
      ensures Valid() && State() == PayloadTypeSet(old(State()), channelId, payload)
    {
      var m := mediaChannelInfo[channelId];
      mediaChannelInfo := mediaChannelInfo[channelId := m.(header := m.header.(payload := payload % 128))];
    }

    method SetupRtpOverTcp(channelId: nat, rtpChannel: nat)
      requires Valid() && channelId < CHANNELS
      modifies this
      ensures Valid() && State() == SetUp(old(State()), channelId, OverTcp, rtpChannel)
    {
      var m := mediaChannelInfo[channelId];
      mediaChannelInfo := mediaChannelInfo[channelId := m.(
        rtpChannel := rtpChannel, rtpfd := RtspSocket, isSetup := true)];
      transportMode := OverTcp;
    }

    /** `peer` tells whether the peer address was found, and `bound` when the first of the ten port
        pairs could be bound; a pair that cannot be bound leaves a closed descriptor. */
    method SetupRtpOverUdp(channelId: nat, peer: bool, bound: nat) returns (done: bool)
      requires Valid() && channelId < CHANNELS
      modifies this
      ensures Valid() && done == (peer && bound < 10)
      ensures State() == if done then SetUp(old(State()), channelId, OverUdp, old(mediaChannelInfo[channelId].rtpChannel))
        else if peer then BindFailed(old(State()), channelId)
        else old(State())
    {
      if !peer {
        return false;
      }
      ghost var m := mediaChannelInfo[channelId];
      var n := 0;
      while n < bound
        invariant n <= bound && n <= 10
        invariant mediaChannelInfo == old(mediaChannelInfo)[channelId := if n == 0 then m else m.(rtpfd := ClosedSocket)]
        invariant unchanged(`transportMode, `isClosed, `isGone, `isIDRFrame, `isWriting, `attempts, `stream, `sent)
        decreases 10 - n
      {
        if n == 10 {
          return false;
        }
        mediaChannelInfo := mediaChannelInfo[channelId := mediaChannelInfo[channelId].(rtpfd := ClosedSocket)];
        n := n + 1;
      }
      if n == 10 {
        return false;
      }
      mediaChannelInfo := mediaChannelInfo[channelId := mediaChannelInfo[channelId].(
        rtpfd := DatagramSocket, isSetup := true)];
      transportMode := OverUdp;
      return true;
    }

    /** The socket is that of the session. */
    method SetupRtpOverMulticast(channelId: nat)
      requires Valid() && channelId < CHANNELS
      modifies this
      ensures Valid()
      ensures State() == SetUp(old(State()), channelId, OverMulticast, old(mediaChannelInfo[channelId].rtpChannel))
    {
      mediaChannelInfo := mediaChannelInfo[channelId := mediaChannelInfo[channelId].(
        rtpfd := DatagramSocket, isSetup := true)];
      transportMode := OverMulticast;
    }

    method Play()
      requires Valid()
      modifies this
      ensures Valid() && State() == Played(old(State()))
    {
      for chn := 0 to CHANNELS
        invariant |mediaChannelInfo| == CHANNELS
        invariant forall k | 0 <= k < CHANNELS ::
          mediaChannelInfo[k] == if k < chn then ChannelPlay(old(mediaChannelInfo[k])) else old(mediaChannelInfo[k])
        invariant unchanged(`transportMode, `isClosed, `isGone, `isIDRFrame, `isWriting, `attempts, `stream, `sent)
      {
        if mediaChannelInfo[chn].isSetup {
          mediaChannelInfo := mediaChannelInfo[chn := mediaChannelInfo[chn].(isPlay := true)];
        }
      }
    }

    method Record()
      requires Valid()
      modifies this
      ensures Valid() && State() == Recorded(old(State()))
    {
      for chn := 0 to CHANNELS
        invariant |mediaChannelInfo| == CHANNELS
        invariant forall k | 0 <= k < CHANNELS ::
          mediaChannelInfo[k] == if k < chn then ChannelRecord(old(mediaChannelInfo[k])) else old(mediaChannelInfo[k])
        invariant unchanged(`transportMode, `isClosed, `isGone, `isIDRFrame, `isWriting, `attempts, `stream, `sent)
      {
        if mediaChannelInfo[chn].isSetup {
          mediaChannelInfo := mediaChannelInfo[chn := mediaChannelInfo[chn].(isRecord := true)];
        }
      }
    }

    method Teardown()
      requires Valid()
      modifies this
      ensures Valid() && State() == TornDown(old(State())) && Intact() == old(Intact())
    {
      if !isClosed {
        isClosed := true;
        for chn := 0 to CHANNELS
          invariant |mediaChannelInfo| == CHANNELS && isClosed
          invariant forall k | 0 <= k < CHANNELS ::
            mediaChannelInfo[k] == if k < chn then ChannelStop(old(mediaChannelInfo[k])) else old(mediaChannelInfo[k])
          invariant unchanged(`transportMode, `isGone, `isIDRFrame, `isWriting, `attempts, `stream, `sent)
        {
          mediaChannelInfo := mediaChannelInfo[chn := mediaChannelInfo[chn].(isPlay := false, isRecord := false)];
        }
      }
    }

    method SetFrameType(frameType: nat)
      requires Valid()
      modifies this
      ensures Valid() && State() == Gated(old(State()), frameType)
    {
      this.frameType := frameType;
      if !isIDRFrame && (this.frameType == 0 || this.frameType == VIDEO_FRAME_I) {
        isIDRFrame := true;
      }
    }

    /** Writes bytes 4 to 15 of the shared packet, and nothing when the gate is closed. */
    method SetRtpHeader(channelId: nat, rtpPkt: array<byte>, last: nat, ts: nat)
      requires Valid() && channelId < CHANNELS && last < 2 && ts < TWO_32
      requires rtpPkt.Length >= TCP_HEAD + RTP_HEADER
      modifies this, rtpPkt
      ensures Valid() && State() == Numbered(old(State()), channelId, last, ts)
      ensures rtpPkt[..] == if old(State().Active(channelId))
        then Spliced(old(rtpPkt[..]), TCP_HEAD, State().channels[channelId].header.Encode())
        else old(rtpPkt[..])
    {
      var m := mediaChannelInfo[channelId];
      if (m.isPlay || m.isRecord) && isIDRFrame {
        var header := m.header.(marker := last, ts := ts, seqno := m.packetSeq);
        mediaChannelInfo := mediaChannelInfo[channelId := m.(
          header := header, packetSeq := (m.packetSeq + 1) % 0x1_0000)];
        Memcpy(rtpPkt, TCP_HEAD, header.Encode());
      }
    }

    /** Sends bytes 4 to `pktSize` of the shared packet; over TCP it first writes bytes 0 to 3. */
    method SendRtpPacket(channelId: nat, rtpPkt: array<byte>, pktSize: nat)
      requires Valid() && channelId < CHANNELS && TCP_HEAD <= pktSize <= rtpPkt.Length
      modifies this, writeBuffer, rtpPkt
      ensures Valid() && State() == Transmitted(network, old(State()), channelId, old(rtpPkt[TCP_HEAD..pktSize]))
      ensures old(Intact()) && rtpPkt !in old(writeBuffer.Arrays()) ==> Intact()
      ensures writeBuffer.Arrays() <= old(writeBuffer.Arrays()) + {rtpPkt}
      ensures rtpPkt[TCP_HEAD..] == old(rtpPkt[TCP_HEAD..])
      ensures rtpPkt[..TCP_HEAD] == if old(!isClosed && State().Active(channelId) && transportMode == OverTcp)
        then TcpHead(old(mediaChannelInfo[channelId].rtpChannel), pktSize - TCP_HEAD) else old(rtpPkt[..TCP_HEAD])
    {
      hide Datagram, Streamed, Counted, BufferWriter.Intact, TcpHead;
      if isClosed {
        return;
      }
      if (mediaChannelInfo[channelId].isPlay || mediaChannelInfo[channelId].isRecord) && isIDRFrame {
        if transportMode == OverTcp {
          SendRtpOverTcp(channelId, rtpPkt, pktSize);
        } else {
          SendRtpOverUdp(channelId, rtpPkt, pktSize);
        }
        Count(channelId, pktSize);
      }
    }

    method Count(channelId: nat, pktSize: nat)
      requires Valid() && channelId < CHANNELS
      modifies this`mediaChannelInfo
      ensures Valid() && State() == Counted(old(State()), channelId, pktSize) && Intact() == old(Intact())
    {
      var m := mediaChannelInfo[channelId];
      mediaChannelInfo := mediaChannelInfo[channelId := m.(
        octetCount := (m.octetCount + pktSize) % TWO_64, packetCount := (m.packetCount + 1) % TWO_64)];
    }

    /** Whatever the descriptor of the channel is, the queue of the RTSP connection is sent to it. */
    method SendRtpOverTcp(channelId: nat, rtpPkt: array<byte>, pktSize: nat)
      requires Valid() && channelId < CHANNELS && TCP_HEAD <= pktSize <= rtpPkt.Length
      modifies this, writeBuffer, rtpPkt
      ensures Valid() && State() == Streamed(network, old(State()), channelId, old(rtpPkt[TCP_HEAD..pktSize]))
      ensures old(Intact()) && rtpPkt !in old(writeBuffer.Arrays()) ==> Intact()
      ensures writeBuffer.Arrays() <= old(writeBuffer.Arrays()) + {rtpPkt}
      ensures rtpPkt[TCP_HEAD..] == old(rtpPkt[TCP_HEAD..])
      ensures rtpPkt[..TCP_HEAD] == TcpHead(old(mediaChannelInfo[channelId].rtpChannel), pktSize - TCP_HEAD)
    {
      hide FlushedTo, Enqueued, TornDown, BufferWriter.Intact, TcpHead;
      Enqueue(channelId, rtpPkt, pktSize);
      var empty, failed := Flush(mediaChannelInfo[channelId].rtpfd);
      if failed {
        Teardown();
        return;
      }
      if empty && !isWriting {
        isWriting := true;
      }
    }

    /** The head of a packet that is not in the queue. */
    method WriteHead(rtpPkt: array<byte>, rtpChannel: nat, pktSize: nat)
      requires Valid() && TCP_HEAD <= pktSize <= rtpPkt.Length
      modifies rtpPkt
      ensures rtpPkt[TCP_HEAD..] == old(rtpPkt[TCP_HEAD..])
      ensures rtpPkt[..TCP_HEAD] == TcpHead(rtpChannel, pktSize - TCP_HEAD)
      ensures rtpPkt[..pktSize] == Interleave(rtpChannel, old(rtpPkt[TCP_HEAD..pktSize]))
      ensures rtpPkt !in writeBuffer.Arrays() ==> writeBuffer.Intact() == old(writeBuffer.Intact())
    {
      hide TcpHead;
      WriteTcpHead(rtpPkt, rtpChannel, pktSize);
      assert rtpPkt[..pktSize] == rtpPkt[..TCP_HEAD] + rtpPkt[TCP_HEAD..][..pktSize - TCP_HEAD];
    }

    /** The head of the packet is written; then it is appended to the write queue, if that has room. */
    method Enqueue(channelId: nat, rtpPkt: array<byte>, pktSize: nat)
      requires Valid() && channelId < CHANNELS && TCP_HEAD <= pktSize <= rtpPkt.Length
      modifies this`sent, this`stream, writeBuffer, rtpPkt
      ensures Valid() && State() == Enqueued(old(State()), channelId, old(rtpPkt[TCP_HEAD..pktSize]))
      ensures old(Intact()) && rtpPkt !in old(writeBuffer.Arrays()) ==> Intact()
      ensures writeBuffer.Arrays() <= old(writeBuffer.Arrays()) + {rtpPkt}
      ensures rtpPkt[TCP_HEAD..] == old(rtpPkt[TCP_HEAD..])
      ensures rtpPkt[..TCP_HEAD] == TcpHead(mediaChannelInfo[channelId].rtpChannel, pktSize - TCP_HEAD)
    {
      hide Interleave, TcpHead, BufferWriter.Held, BufferWriter.Intact, BufferWriter.Arrays;
      ghost var rtp := rtpPkt[TCP_HEAD..pktSize];
      WriteHead(rtpPkt, mediaChannelInfo[channelId].rtpChannel, pktSize);
      var queued := writeBuffer.Append(rtpPkt, pktSize, 0);
      label Appended:
      assert forall a | a in writeBuffer.Arrays() :: a as object != this;
      ghost var m := mediaChannelInfo[channelId];
      stream := if queued then stream + [Media(m.rtpChannel % 256, rtp)] else stream;
      sent := sent + [Sent(channelId, true, m.rtpfd, m.rtpChannel, rtp, !queued)];
      assert old@Appended(writeBuffer.Intact()) ==> writeBuffer.Intact();
    }

    /** The queue is sent to the socket that `fd` stands for. */
    method Flush(fd: Descriptor) returns (empty: bool, failed: bool)
      requires Valid()
      modifies this`attempts, writeBuffer
      ensures Valid() && (old(Intact()) ==> Intact())
      ensures writeBuffer.Arrays() <= old(writeBuffer.Arrays())
      ensures var f := FlushedTo(network, old(State()).socket, fd.RtspSocket?);
              State() == old(State()).(socket := f.socket) && failed == f.failed && empty == (f.socket.queue == [])
    {
      hide FlushedTo, Contents, Lengths, ArraysIn;
      attempts, failed := writeBuffer.FlushTo(network, attempts, fd == RtspSocket);
      empty := writeBuffer.buffer == [];
    }

    /** sendto on the descriptor of the channel, whatever that is. */
    method SendRtpOverUdp(channelId: nat, rtpPkt: array<byte>, pktSize: nat)
      requires Valid() && channelId < CHANNELS && TCP_HEAD <= pktSize <= rtpPkt.Length
      modifies this, writeBuffer
      ensures Valid() && State() == Datagram(network, old(State()), channelId, rtpPkt[TCP_HEAD..pktSize])
      ensures (old(Intact()) ==> Intact()) && writeBuffer.Arrays() == old(writeBuffer.Arrays())
    {
      hide TornDown, BufferWriter.Intact, BufferWriter.Arrays, Bare;
      var ret := network(attempts);
      if ret.Failed? || ret.n == 0 {
        Tried();
        Teardown();
      } else {
        Handed(channelId, ret.n, rtpPkt[TCP_HEAD..pktSize]);
      }
    }

    method Tried()
      requires Valid()
      modifies this`attempts
      ensures Valid() && Intact() == old(Intact())
      ensures var s := old(State()).socket; State() == old(State()).(socket := s.(attempts := s.attempts + 1))
    {
      attempts := attempts + 1;
    }

    /** The system has taken `n` bytes of the packet, or the datagram. */
    method Handed(channelId: nat, n: nat, ghost rtp: seq<byte>)
      requires Valid() && channelId < CHANNELS
      modifies this`attempts, this`sent, writeBuffer`wire, writeBuffer`due
      ensures Valid() && Intact() == old(Intact()) && writeBuffer.Arrays() == old(writeBuffer.Arrays())
      ensures var c, fd := old(State()), mediaChannelInfo[channelId].rtpfd;
              State() == c.(socket := Bare(c.socket, fd, n, rtp),
                            sent := c.sent + [Sent(channelId, false, fd, 0, rtp, false)])
    {
      if mediaChannelInfo[channelId].rtpfd == RtspSocket {
        writeBuffer.PastTheQueue(rtp[..Least(n, |rtp|)]);
        SameTail(old(writeBuffer.wire), old(writeBuffer.due), rtp[..Least(n, |rtp|)]);
      }
      attempts := attempts + 1;
      sent := sent + [Sent(channelId, false, mediaChannelInfo[channelId].rtpfd, 0, rtp, false)];
    }

    /** RtspConnection::handleClose: the session no longer reaches this client. */
    method HandleClose()
      requires Valid()
      modifies this
      ensures Valid() && State() == TornDown(old(State())).(isGone := true) && Intact() == old(Intact())
    {
      Teardown();
      isGone := true;
    }

    /** RtspConnection::handleWrite, on this client's queue. */
    method HandleWrite()
      requires Valid()
      modifies this, writeBuffer
      ensures Valid() && State() == Written(network, old(State())) && (old(Intact()) ==> Intact())
      ensures writeBuffer.Arrays() <= old(writeBuffer.Arrays())
    {
      hide Flushed;
      if isGone {
        return;
      }
      var empty, failed := Flush(RtspSocket);
      if failed {
        HandleClose();
        return;
      }
      if empty {
        isWriting := false;
      }
    }

    /** RtspConnection::sendMessage: a message in a buffer of its own. */
    method SendMessage(text: array<byte>)
      requires Valid() && text !in writeBuffer.Arrays()
      modifies this, writeBuffer
      ensures Valid() && State() == Replied(network, old(State()), text[..]) && (old(Intact()) ==> Intact())
      ensures writeBuffer.Arrays() <= old(writeBuffer.Arrays()) + {text}
    {
      hide Flushed, Appended, TornDown, BufferWriter.Intact, BufferWriter.Arrays;
      if isGone {
        return;
      }
      AppendMessage(text);
      var empty, failed := Flush(RtspSocket);
      if failed {
        HandleClose();
        return;
      }
      if !empty && !isWriting {
        isWriting := true;
      }
    }

    method AppendMessage(text: array<byte>)
      requires Valid()
      modifies this`stream, writeBuffer
      ensures Valid() && State() == Appended(old(State()), text[..])
      ensures (old(Intact()) ==> Intact()) && writeBuffer.Arrays() <= old(writeBuffer.Arrays()) + {text}
    {
      hide BufferWriter.Held, BufferWriter.Intact, BufferWriter.Arrays;
      var queued := writeBuffer.Append(text, text.Length, 0);
      label Queued:
      assert forall a | a in writeBuffer.Arrays() :: a as object != this;
      assert text[0..text.Length] == text[..];
      stream := if queued then stream + [Message(text[..])] else stream;
      assert old@Queued(writeBuffer.Intact()) ==> writeBuffer.Intact();
    }
  }

  lemma {:induction false} SameTail(a: seq<byte>, b: seq<byte>, tail: seq<byte>)
    ensures a + tail == b + tail <==> a == b
  {
    assert (a + tail == b + tail) ==> (a + tail)[..|a + tail| - |tail|] == (b + tail)[..|b + tail| - |tail|];
    assert (a + tail)[..|a + tail| - |tail|] == a && (b + tail)[..|b + tail| - |tail|] == b;
  }

  /** The four bytes in front of an interleaved packet. */
  method WriteTcpHead(rtpPkt: array<byte>, rtpChannel: nat, pktSize: nat)
    requires TCP_HEAD <= pktSize <= rtpPkt.Length
    modifies rtpPkt
    ensures rtpPkt[TCP_HEAD..] == old(rtpPkt[TCP_HEAD..])
    ensures rtpPkt[..TCP_HEAD] == TcpHead(rtpChannel, pktSize - TCP_HEAD)
  {
    rtpPkt[0] := DOLLAR;
    rtpPkt[1] := rtpChannel % 256;
    rtpPkt[2] := (pktSize - 4) % 0x1_0000 / 0x100;
    rtpPkt[3] := (pktSize - 4) % 0x100;
    LengthField(pktSize - 4);
  }

  lemma {:induction false} SecondByte(n: nat)
    ensures n % 0x1_0000 / 0x100 == n / 256 % 256
  {
  }

  lemma {:induction false} LengthField(n: nat)
    ensures BigEndian(n, 2) == [n % 0x1_0000 / 0x100, n % 0x100]
  {
    assert BigEndian(n, 2) == BigEndian(n / 256, 1) + [n % 256];
    assert BigEndian(n / 256, 1) == BigEndian(n / 256 / 256, 0) + [n / 256 % 256];
    SecondByte(n);
  }
}
