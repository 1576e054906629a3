/** What one client is sent, said in terms of the requests and frames alone: which frames go out, with
    which headers and numbers, which responses, and what ends it; and whose header the packet that the
    clients share carries in the end. */
module RtpRequests {
  import opened Bytes
  import opened RtpPacket
  import opened BufferWriters
  import opened RtpState
  import opened Packetizer
  import opened VideoSources
  import opened RtpConnections
  import opened MediaSessions
  import SharedPacket
  import opened RtpRuns

  // -- What the last requests have asked for ------------------------------------------------

  /** The transport of the last SETUP. */
  function LastTransport(es: seq<Event>): Transport {
    if es == [] then NotSetUp
    else if es[|es| - 1].SetUpEvent? then es[|es| - 1].transport
    else LastTransport(es[..|es| - 1])
  }

  /** The channel number in the last SETUP over TCP of a channel. */
  function LastNumber(es: seq<Event>, ch: nat): nat {
    if es == [] then 0
    else
      var e := es[|es| - 1];
      if e.SetUpEvent? && e.ch == ch && e.transport.OverTcp? then e.rtpChannel else LastNumber(es[..|es| - 1], ch)
  }

  /** The socket of the last SETUP of a channel, which one that fails to bind leaves closed. */
  function LastDescriptor(es: seq<Event>, ch: nat): Descriptor {
    if es == [] then NoSocket
    else
      var e := es[|es| - 1];
      if e.SetUpEvent? && e.ch == ch then if e.transport.OverTcp? then RtspSocket else DatagramSocket
      else if e.BindFailsEvent? && e.ch == ch then ClosedSocket
      else LastDescriptor(es[..|es| - 1], ch)
  }

  /** The low seven bits of the last payload type of a channel. */
  function LastType(es: seq<Event>, ch: nat): nat {
    if es == [] then 0
    else
      var e := es[|es| - 1];
      if e.PayloadTypeEvent? && e.ch == ch then e.payload % 128 else LastType(es[..|es| - 1], ch)
  }

  lemma {:induction false} StepAsks(net: Network, c: Conn, e: Event, ch: nat)
    requires c.Valid() && e.Valid() && ch < CHANNELS
    ensures var r, m := Step(net, c, e), c.channels[ch];
            var n := r.channels[ch];
            && r.transport == (if e.SetUpEvent? then e.transport else c.transport)
            && n.rtpChannel
                 == (if e.SetUpEvent? && e.ch == ch && e.transport.OverTcp? then e.rtpChannel else m.rtpChannel)
            && n.rtpfd
                 == (if e.SetUpEvent? && e.ch == ch then if e.transport.OverTcp? then RtspSocket else DatagramSocket
                     else if e.BindFailsEvent? && e.ch == ch then ClosedSocket else m.rtpfd)
            && n.header.payload == (if e.PayloadTypeEvent? && e.ch == ch then e.payload % 128 else m.header.payload)
            && n.header.ssrc == m.header.ssrc
  {
    hide OfferedPackets, Payloads, Written, Replied, TornDown, Unsent;
    if e.MediaEvent? {
      var ps := Payloads(e.codec, e.frame.data);
      PacketsKeepLines(net, c, e.ch, e.frame.frameType, e.frame.Timestamp(e.now), ps, |ps|);
    } else if e.WritableEvent? || e.ReplyEvent? || e.TeardownEvent? {
      SocketStep(net, c, e);
    }
  }

  /** In every run transport, channel number, socket and payload type are those last asked for, and
      the SSRC is the one of the start. */
  lemma {:induction false} AsLastAsked(net: Network, ts: seq<nat>, ssrc: seq<nat>, es: seq<Event>, ch: nat)
    requires New(ts, ssrc) && AllValid(es) && ch < CHANNELS
    ensures var r := Run(net, Initial(ts, ssrc), es);
            && r.transport == LastTransport(es)
            && r.channels[ch].rtpChannel == LastNumber(es, ch) && r.channels[ch].rtpfd == LastDescriptor(es, ch)
            && r.channels[ch].header.payload == LastType(es, ch) && r.channels[ch].header.ssrc == ssrc[ch]
  {
    hide Step;
    if es != [] {
      AsLastAsked(net, ts, ssrc, es[..|es| - 1], ch);
      StepAsks(net, Run(net, Initial(ts, ssrc), es[..|es| - 1]), es[|es| - 1], ch);
    }
  }

  // -- Which channels have started --------------------------------------------------------

  /** The channel was set up among the first `n` events. */
  ghost predicate SetUpBefore(es: seq<Event>, ch: nat, n: nat)
    requires n <= |es|
  {
    exists j | 0 <= j < n :: es[j].SetUpEvent? && es[j].ch == ch
  }

  ghost predicate PlayAfterSetUp(es: seq<Event>, ch: nat) {
    exists k | 0 <= k < |es| :: es[k].PlayEvent? && SetUpBefore(es, ch, k)
  }

  ghost predicate RecordAfterSetUp(es: seq<Event>, ch: nat) {
    exists k | 0 <= k < |es| :: es[k].RecordEvent? && SetUpBefore(es, ch, k)
  }

  lemma {:induction false} AfterSetUpSnoc(es: seq<Event>, ch: nat)
    requires es != []
    ensures var n := |es| - 1;
            && (SetUpBefore(es, ch, n) <==> SetUpBefore(es[..n], ch, n))
            && (PlayAfterSetUp(es, ch)
                <==> PlayAfterSetUp(es[..n], ch) || (es[n].PlayEvent? && SetUpBefore(es[..n], ch, n)))
            && (RecordAfterSetUp(es, ch)
                <==> RecordAfterSetUp(es[..n], ch) || (es[n].RecordEvent? && SetUpBefore(es[..n], ch, n)))
  {
    var n := |es| - 1;
    assert forall j | 0 <= j < n :: es[..n][j] == es[j];
    forall k | 0 <= k <= n ensures SetUpBefore(es, ch, k) <==> SetUpBefore(es[..n], ch, k) {
      if j :| 0 <= j < k && es[j].SetUpEvent? && es[j].ch == ch {
        assert es[..n][j].SetUpEvent? && es[..n][j].ch == ch;
      }
    }
  }

  lemma {:induction false} StepStarts(net: Network, c: Conn, e: Event, ch: nat)
    requires c.Valid() && e.Valid() && ch < CHANNELS && !Step(net, c, e).isClosed
    ensures var m, n := c.channels[ch], Step(net, c, e).channels[ch];
            && !c.isClosed
            && (n.isPlay <==> m.isPlay || (e.PlayEvent? && m.isSetup))
            && (n.isRecord <==> m.isRecord || (e.RecordEvent? && m.isSetup))
  {
    hide OfferedPackets, Payloads, Written, Replied, TornDown, Unsent;
    StepCloses(net, c, e);
    if e.MediaEvent? {
      var ps := Payloads(e.codec, e.frame.data);
      PacketsControl(net, c, e.ch, e.frame.frameType, e.frame.Timestamp(e.now), ps, |ps|);
      SameFlags(c, Step(net, c, e), ch);
    } else if e.WritableEvent? || e.ReplyEvent? || e.TeardownEvent? {
      SocketStep(net, c, e);
    }
  }

  lemma {:induction false} SameFlags(c: Conn, r: Conn, ch: nat)
    requires c.Valid() && r.Valid() && ch < CHANNELS
    requires exists gate: bool :: ControlOf(r) == ControlOf(c).(isIDRFrame := gate)
    ensures r.channels[ch].isPlay == c.channels[ch].isPlay && r.channels[ch].isRecord == c.channels[ch].isRecord
  {
  }

  /** On an open connection a channel plays if and only if a PLAY came after a SETUP of it, and records
      if and only if a RECORD did. */
  lemma {:induction false} StartedIff(net: Network, ts: seq<nat>, ssrc: seq<nat>, es: seq<Event>, ch: nat)
    requires New(ts, ssrc) && AllValid(es) && ch < CHANNELS && !Run(net, Initial(ts, ssrc), es).isClosed
    ensures var m := Run(net, Initial(ts, ssrc), es).channels[ch];
            (m.isPlay <==> PlayAfterSetUp(es, ch)) && (m.isRecord <==> RecordAfterSetUp(es, ch))
  {
    hide Step, PlayAfterSetUp, RecordAfterSetUp, Guarded;
    var c := Initial(ts, ssrc);
    if es == [] {
      NoRequests(ch);
    } else {
      var init, e := es[..|es| - 1], es[|es| - 1];
      StepStarts(net, Run(net, c, init), e, ch);
      StartedIff(net, ts, ssrc, init, ch);
      NothingBeforeTheGate(net, ts, ssrc, init, ch);
      AfterSetUpSnoc(es, ch);
    }
  }

  lemma {:induction false} NoRequests(ch: nat)
    ensures !PlayAfterSetUp([], ch) && !RecordAfterSetUp([], ch)
  {
  }

  /** A teardown closes, and stops both channels. */
  lemma {:induction false} TeardownStops(net: Network, c: Conn)
    requires c.Valid()
    ensures var r := Step(net, c, TeardownEvent);
            && r.isClosed && r.sent == c.sent
            && (!c.isClosed ==> forall k | 0 <= k < CHANNELS :: !r.channels[k].Started())
  {
  }

  /** Once is enough: on a connection that is closed a teardown does nothing, even if a PLAY has started
      its channels again, and a packet of a channel so started is numbered and not sent. */
  lemma {:induction false} ClosedStill(net: Network, c: Conn, ch: nat, frameType: nat, last: nat, ts: nat,
      payload: seq<byte>)
    requires c.Valid() && c.isClosed && ch < CHANNELS && last < 2 && ts < TWO_32
    ensures Step(net, c, TeardownEvent) == c
    ensures var r, m := Offered(net, c, ch, frameType, last, ts, payload), c.channels[ch];
            && r.isClosed && r.sent == c.sent && r.socket == c.socket
            && r.channels[ch].packetSeq
                 == if m.Started() && (c.isIDRFrame || frameType == 0 || frameType == VIDEO_FRAME_I)
                    then (m.packetSeq + 1) % 0x1_0000 else m.packetSeq
  {
    hide RtpHeader.Encode, Attempted;
  }

  // -- Which packets go out ---------------------------------------------------------------

  /** The k-th of the packets of a frame, as it goes out. */
  function ExactPacket(c: Conn, ch: nat, ts: nat, ps: seq<seq<byte>>, k: nat): seq<byte>
    requires c.Valid() && ch < CHANNELS && ts < TWO_32 && k < |ps|
  {
    var m := c.channels[ch];
    RtpHeader(if k == |ps| - 1 then 1 else 0, m.header.payload, (m.packetSeq + k) % 0x1_0000, ts, m.header.ssrc).Encode()
    + ps[k]
  }

  /** From `c` to `r` exactly the first `n` packets have gone out. */
  ghost predicate WentExactly(c: Conn, r: Conn, ch: nat, ts: nat, ps: seq<seq<byte>>, n: nat)
    requires c.Valid() && ch < CHANNELS && ts < TWO_32 && n <= |ps|
  {
    && c.sent <= r.sent && |r.sent| == |c.sent| + n
    && forall k | |c.sent| <= k < |r.sent| ::
         && r.sent[k].rtp == ExactPacket(c, ch, ts, ps, k - |c.sent|)
         && r.sent[k].ch == ch && r.sent[k].tcp == c.transport.OverTcp? && r.sent[k].rtpfd == c.channels[ch].rtpfd
         && (r.sent[k].tcp ==> r.sent[k].rtpChannel == c.channels[ch].rtpChannel)
  }

  lemma {:induction false} OneMoreExactly(net: Network, c: Conn, d: Conn, ch: nat, frameType: nat, ts: nat,
      ps: seq<seq<byte>>, n: nat)
    requires c.Valid() && d.Valid() && ch < CHANNELS && ts < TWO_32 && n < |ps| && WentExactly(c, d, ch, ts, ps, n)
    requires d.transport == c.transport && SameLine(c.channels[ch], d.channels[ch]) && Passes(d, ch, frameType)
    requires d.channels[ch].packetSeq == (c.channels[ch].packetSeq + n) % 0x1_0000
    ensures var r := Offered(net, d, ch, frameType, if n + 1 == |ps| then 1 else 0, ts, ps[n]);
            !r.isClosed ==> WentExactly(c, r, ch, ts, ps, n + 1)
  {
    hide Offered, RtpHeader.Encode, Unsent, Passes, RtpRuns.Advanced;
    OfferedIs(net, d, ch, frameType, if n + 1 == |ps| then 1 else 0, ts, ps[n]);
  }

  lemma {:induction false} PacketsExactly(net: Network, c: Conn, ch: nat, frameType: nat, ts: nat,
      ps: seq<seq<byte>>, n: nat)
    requires c.Valid() && ch < CHANNELS && ts < TWO_32 && n <= |ps| && Passes(c, ch, frameType)
    requires !OfferedPackets(net, c, ch, frameType, ts, ps, n).isClosed
    ensures var r := OfferedPackets(net, c, ch, frameType, ts, ps, n);
            && WentExactly(c, r, ch, ts, ps, n) && Passes(r, ch, frameType)
            && r.transport == c.transport && SameLine(c.channels[ch], r.channels[ch])
            && r.channels[ch].packetSeq == (c.channels[ch].packetSeq + n) % 0x1_0000
  {
    hide Offered, Unsent, WentExactly;
    if n == 0 {
      NoneExactly(c, ch, ts, ps);
    } else {
      var d, last := OfferedPackets(net, c, ch, frameType, ts, ps, n - 1), if n == |ps| then 1 else 0;
      OfferedIs(net, d, ch, frameType, last, ts, ps[n - 1]);
      PacketsExactly(net, c, ch, frameType, ts, ps, n - 1);
      OneMoreExactly(net, c, d, ch, frameType, ts, ps, n - 1);
      NextNumber(c.channels[ch].packetSeq, n);
    }
  }

  lemma {:induction false} NoneExactly(c: Conn, ch: nat, ts: nat, ps: seq<seq<byte>>)
    requires c.Valid() && ch < CHANNELS && ts < TWO_32
    ensures WentExactly(c, c, ch, ts, ps, 0)
  {
  }

  lemma {:induction false} NextNumber(a: nat, n: nat)
    requires n > 0
    ensures ((a + (n - 1)) % 0x1_0000 + 1) % 0x1_0000 == (a + n) % 0x1_0000
  {
  }

  /** A frame that comes to an open client and leaves it open goes out if and only if its channel plays
      or records and this frame or an earlier one was an I or untyped frame, all of which the requests
      and frames decide. What goes out is a packet for each payload, byte for byte: the marker on the
      last one, the payload type last asked for, consecutive numbers, the time stamp of the frame, or of
      the clock if it has none, and the SSRC of the channel. */
  lemma {:induction false} FrameGoesOut(net: Network, ts: seq<nat>, ssrc: seq<nat>, es: seq<Event>, e: Event)
    requires New(ts, ssrc) && AllValid(es) && e.Valid() && e.MediaEvent?
    requires !Run(net, Initial(ts, ssrc), es).isClosed && !Step(net, Run(net, Initial(ts, ssrc), es), e).isClosed
    ensures var c, ps := Run(net, Initial(ts, ssrc), es), Payloads(e.codec, e.frame.data);
            var r, time := Step(net, c, e), if e.frame.timestamp == 0 then e.now else e.frame.timestamp;
            if (PlayAfterSetUp(es, e.ch) || RecordAfterSetUp(es, e.ch))
               && (e.Opens() || exists k :: 0 <= k < |es| && es[k].Opens())
            then WentExactly(c, r, e.ch, time, ps, |ps|) else r.sent == c.sent
  {
    hide Run, Initial, Payloads, OfferedPackets, WentExactly, PlayAfterSetUp, RecordAfterSetUp, Guarded, Went;
    var c, ps := Run(net, Initial(ts, ssrc), es), Payloads(e.codec, e.frame.data);
    StartedIff(net, ts, ssrc, es, e.ch);
    NothingBeforeTheGate(net, ts, ssrc, es, e.ch);
    if Passes(c, e.ch, e.frame.frameType) {
      PacketsExactly(net, c, e.ch, e.frame.frameType, e.frame.Timestamp(e.now), ps, |ps|);
    } else {
      WholeFrames(net, c, e);
    }
  }

  /** What the sources do to each client the session reaches is the step that the runs are made of. */
  lemma {:induction false} SourceSteps(clients: map<int, RtpConnection?>, isMulticast: bool, before: map<int, Conn>,
      after: map<int, Conn>, ch: nat, codec: Codec, f: AVFrame, now: nat)
    requires ch < CHANNELS && f.Valid() && now < TWO_32
    requires var ps, time := Payloads(codec, f.data), if f.timestamp == 0 then now else f.timestamp;
             AllOffered(clients, isMulticast, before, after, ch, f.frameType, time, ps, |ps|)
    ensures forall k | k in before ::
      k in after && k in clients && clients[k] != null && before[k].Valid()
      && after[k] == if Reached(clients, isMulticast, k)
           then Step(clients[k].network, before[k], MediaEvent(ch, codec, f, now)) else before[k]
  {
    hide OfferedPackets, Payloads, Reached;
  }

  // -- Sends that fail --------------------------------------------------------------------

  /** A packet sent by sendto: the connection is torn down if and only if that fails, and else the
      packet has been sent; the byte stream of the RTSP connection gains what it takes of it if the
      descriptor is its own, and nothing otherwise. */
  lemma {:induction false} SendtoOutcome(net: Network, c: Conn, ch: nat, frameType: nat, last: nat, ts: nat,
      payload: seq<byte>)
    requires c.Valid() && ch < CHANNELS && last < 2 && ts < TWO_32
    requires Passes(c, ch, frameType) && !c.transport.OverTcp?
    ensures var r, s := Offered(net, c, ch, frameType, last, ts, payload), PacketOf(c, ch, last, ts, payload);
            var o := net(c.socket.attempts);
            && r.socket.attempts == c.socket.attempts + 1 && r.socket.queue == c.socket.queue
            && (r.isClosed <==> o.Failed? || o.n == 0)
            && r.sent == c.sent + (if r.isClosed then [] else [s])
            && r.socket.wire == c.socket.wire
                 + (if !r.isClosed && c.channels[ch].rtpfd.RtspSocket? then s.rtp[..Least(o.n, |s.rtp|)] else [])
  {
    hide RtpHeader.Encode, Streamed;
    var n := Numbered(Gated(c, frameType), ch, last, ts);
    assert n.channels[ch].header == HeaderOf(c, ch, last, ts);
  }

  /** A packet of an interleaved client: the connection is torn down if and only if a send has failed. */
  lemma {:induction false} StreamOutcome(net: Network, c: Conn, ch: nat, frameType: nat, last: nat, ts: nat,
      payload: seq<byte>)
    requires c.Valid() && ch < CHANNELS && last < 2 && ts < TWO_32
    requires Passes(c, ch, frameType) && c.transport.OverTcp?
    ensures var r := Offered(net, c, ch, frameType, last, ts, payload);
            && r.socket.attempts > c.socket.attempts
            && (r.isClosed <==> exists k | c.socket.attempts <= k < r.socket.attempts :: net(k).Failed?)
            && r.sent == c.sent + [PacketOf(c, ch, last, ts, payload)]
  {
    hide Offered, Flushed, RtpHeader.Encode, Interleave;
    var s := PacketOf(c, ch, last, ts, payload);
    OfferedSocket(net, c, ch, frameType, last, ts, payload);
    OfferedIs(net, c, ch, frameType, last, ts, payload);
    FlushEnds(net, c.socket.(queue := if c.QueueFull() then c.socket.queue else c.socket.queue + [s.Bytes()]));
  }

  /** A socket that is watched and takes what it is given empties the queue; one that is not watched,
      or whose connection is gone, is given nothing; a failed send ends the connection. */
  lemma {:induction false} WritableSends(net: Network, c: Conn)
    requires c.Valid()
    ensures var r := Step(net, c, WritableEvent);
            && (!c.isWriting || c.isGone ==> r == c)
            && (c.isWriting && !c.isGone && (forall k | k >= c.socket.attempts :: net(k).Took? && net(k).n > 0) ==>
                  r.socket.queue == [] && r.socket.wire == c.socket.wire + Flatten(c.socket.queue) && !r.isWriting)
            && (c.isWriting && !c.isGone && c.socket.queue != [] && net(c.socket.attempts).Failed? ==>
                  r.isGone && r.isClosed && r.socket.wire == c.socket.wire)
  {
    hide TornDown;
    if c.isWriting && !c.isGone && forall k | k >= c.socket.attempts :: net(k).Took? && net(k).n > 0 {
      KeepsUp(net, c.socket);
      assert Flushed(net, c.socket).socket.wire + [] == Flushed(net, c.socket).socket.wire;
    }
  }

  /** A response that is sent, or that finds other bytes to send, ends the connection if and only if one
      of its sends fails. */
  lemma {:induction false} ReplyOutcome(net: Network, c: Conn, text: seq<byte>)
    requires c.Valid() && !c.isGone && (text != [] || c.socket.queue != [])
    ensures var r := Step(net, c, ReplyEvent(text));
            && r.socket.attempts > c.socket.attempts
            && (r.isGone <==> exists k | c.socket.attempts <= k < r.socket.attempts :: net(k).Failed?)
            && (r.isGone ==> r.isClosed) && (!r.isGone ==> r.isClosed == c.isClosed)
  {
    hide Flushed;
    FlushEnds(net, Appended(c, text).socket);
  }

  // -- Whose header the shared packet carries -----------------------------------------------

  /** The channel has started and the gate is open, or is opened by this frame. */
  predicate PastGate(c: Conn, ch: nat, frameType: nat)
    requires c.Valid() && ch < CHANNELS
  {
    c.channels[ch].Started() && (c.isIDRFrame || frameType == 0 || frameType == VIDEO_FRAME_I)
  }

  lemma {:induction false} OneTurn(c: Conn, ch: nat, frameType: nat, last: nat, ts: nat, size: nat, was: seq<byte>)
    requires c.Valid() && ch < CHANNELS && last < 2 && ts < TWO_32 && size >= TCP_HEAD && |was| == SharedPacket.RESERVED
    ensures var r := SharedPacket.AllOn(was, StampOf(c, ch, frameType, last, ts, size));
            && r[TCP_HEAD..] == (if PastGate(c, ch, frameType) then HeaderOf(c, ch, last, ts).Encode() else was[TCP_HEAD..])
            && r[..TCP_HEAD] == if Passes(c, ch, frameType) && c.transport.OverTcp?
                 then TcpHead(c.channels[ch].rtpChannel, size - TCP_HEAD) else was[..TCP_HEAD]
  {
    hide RtpHeader.Encode, TcpHead;
    var s := StampOf(c, ch, frameType, last, ts, size);
    if s != [] {
      assert s[..0] == [] && SharedPacket.AllOn(was, []) == was;
      assert SharedPacket.AllOn(was, s) == s[0].On(was);
    }
  }

  /** When all clients in `order` have had their turns the packet carries the RTP header of the last one
      past its gate, sent to or not. */
  lemma {:induction false} WhoseHeader(before: map<int, Conn>, order: seq<int>, i: int, ch: nat, frameType: nat,
      last: nat, ts: nat, size: nat, was: seq<byte>)
    requires ch < CHANNELS && last < 2 && ts < TWO_32 && size >= TCP_HEAD && |was| == SharedPacket.RESERVED
    requires Known(before, order) && -1 <= i < |order| && (i >= 0 ==> PastGate(before[order[i]], ch, frameType))
    requires forall j | i < j < |order| :: !PastGate(before[order[j]], ch, frameType)
    ensures SharedPacket.AllOn(was, Stamps(before, order, ch, frameType, last, ts, size))[TCP_HEAD..]
      == if i < 0 then was[TCP_HEAD..] else HeaderOf(before[order[i]], ch, last, ts).Encode()
  {
    hide StampOf, SharedPacket.AllOn, PastGate, RtpHeader.Encode, HeaderOf;
    if order == [] {
      NoTurns(was);
    } else {
      var n := |order| - 1;
      LastTurn(before, order, ch, frameType, last, ts, size, was);
      if i < n {
        WhoseHeader(before, order[..n], i, ch, frameType, last, ts, size, was);
      }
    }
  }

  /** And it carries the interleaving head of the last one that is interleaved and sent the packet. */
  lemma {:induction false} WhoseHead(before: map<int, Conn>, order: seq<int>, i: int, ch: nat, frameType: nat,
      last: nat, ts: nat, size: nat, was: seq<byte>)
    requires ch < CHANNELS && last < 2 && ts < TWO_32 && size >= TCP_HEAD && |was| == SharedPacket.RESERVED
    requires Known(before, order) && -1 <= i < |order|
    requires i >= 0 ==> Passes(before[order[i]], ch, frameType) && before[order[i]].transport.OverTcp?
    requires forall j | i < j < |order| ::
      !(Passes(before[order[j]], ch, frameType) && before[order[j]].transport.OverTcp?)
    ensures SharedPacket.AllOn(was, Stamps(before, order, ch, frameType, last, ts, size))[..TCP_HEAD]
      == if i < 0 then was[..TCP_HEAD] else TcpHead(before[order[i]].channels[ch].rtpChannel, size - TCP_HEAD)
  {
    hide StampOf, SharedPacket.AllOn, Passes, RtpHeader.Encode, HeaderOf, TcpHead;
    if order == [] {
      NoTurns(was);
    } else {
      var n := |order| - 1;
      LastTurn(before, order, ch, frameType, last, ts, size, was);
      if i < n {
        WhoseHead(before, order[..n], i, ch, frameType, last, ts, size, was);
      }
    }
  }

  lemma {:induction false} NoTurns(was: seq<byte>)
    requires |was| == SharedPacket.RESERVED
    ensures SharedPacket.AllOn(was, []) == was
  {
  }

  lemma {:induction false} LastTurn(before: map<int, Conn>, order: seq<int>, ch: nat, frameType: nat, last: nat,
      ts: nat, size: nat, was: seq<byte>)
    requires ch < CHANNELS && last < 2 && ts < TWO_32 && size >= TCP_HEAD && |was| == SharedPacket.RESERVED
    requires Known(before, order) && order != []
    ensures var n := |order| - 1;
            var mid := SharedPacket.AllOn(was, Stamps(before, order[..n], ch, frameType, last, ts, size));
            var c, r := before[order[n]], SharedPacket.AllOn(was, Stamps(before, order, ch, frameType, last, ts, size));
            && r[TCP_HEAD..] == (if PastGate(c, ch, frameType) then HeaderOf(c, ch, last, ts).Encode() else mid[TCP_HEAD..])
            && r[..TCP_HEAD] == if Passes(c, ch, frameType) && c.transport.OverTcp?
                 then TcpHead(c.channels[ch].rtpChannel, size - TCP_HEAD) else mid[..TCP_HEAD]
  {
    hide StampOf, SharedPacket.AllOn, Passes, PastGate, RtpHeader.Encode, HeaderOf, TcpHead;
    var init, c := order[..|order| - 1], before[order[|order| - 1]];
    var a := Stamps(before, init, ch, frameType, last, ts, size);
    OneTurn(c, ch, frameType, last, ts, size, SharedPacket.AllOn(was, a));
    SharedPacket.AllOnConcat(was, a, StampOf(c, ch, frameType, last, ts, size));
  }

  // -- Which responses are sent -----------------------------------------------------------

  /** The messages among the chunks of a stream. */
  function TextsOf(cs: seq<Chunk>): seq<seq<byte>> {
    if cs == [] then []
    else TextsOf(cs[..|cs| - 1]) + if cs[|cs| - 1].Message? then [cs[|cs| - 1].text] else []
  }

  lemma {:induction false} TextsSnoc(cs: seq<Chunk>, c: Chunk)
    ensures TextsOf(cs + [c]) == TextsOf(cs) + if c.Message? then [c.text] else []
  {
    assert (cs + [c])[..|cs + [c]| - 1] == cs;
  }

  /** A response joins the byte stream, behind all that is in it, if the connection is there and fewer
      than 300 packets and messages are queued. */
  lemma {:induction false} ReplyJoins(net: Network, c: Conn, text: seq<byte>)
    requires c.Valid()
    ensures var r := Step(net, c, ReplyEvent(text));
            var joins := !c.isGone && text != [] && |c.socket.queue| < 300;
            && r.stream == c.stream + (if joins then [Message(text)] else [])
            && r.socket.wire + Flatten(r.socket.queue)
                 == c.socket.wire + Flatten(c.socket.queue) + (if joins then text else [])
            && (c.isGone ==> r == c)
  {
    hide Flushed, TornDown, Flatten;
    FlattenConcat(c.socket.queue, [text]);
    FlattenOne(text);
    AtTheEnd(c.socket.wire, Flatten(c.socket.queue), text);
    assert c.socket.wire + Flatten(c.socket.queue) + [] == c.socket.wire + Flatten(c.socket.queue);
    assert c.stream + [] == c.stream;
  }

  /** The responses of a run that find the connection there and room in its queue. */
  function Answered(net: Network, c: Conn, es: seq<Event>): seq<seq<byte>>
    requires c.Valid() && AllValid(es)
  {
    if es == [] then []
    else
      var init, e := es[..|es| - 1], es[|es| - 1];
      var d := Run(net, c, init);
      Answered(net, c, init)
      + if e.ReplyEvent? && e.text != [] && !d.isGone && |d.socket.queue| < 300 then [e.text] else []
  }

  lemma {:induction false} PacketTexts(net: Network, c: Conn, ch: nat, frameType: nat, last: nat, ts: nat,
      payload: seq<byte>)
    requires c.Valid() && ch < CHANNELS && last < 2 && ts < TWO_32
    ensures TextsOf(Offered(net, c, ch, frameType, last, ts, payload).stream) == TextsOf(c.stream)
    ensures Offered(net, c, ch, frameType, last, ts, payload).isGone == c.isGone
  {
    hide FlushedTo, RtpHeader.Encode, Unsent, TextsOf, Interleave;
    var n := Numbered(Gated(c, frameType), ch, last, ts);
    TextsSnoc(c.stream, Media(n.channels[ch].rtpChannel % 256, n.channels[ch].header.Encode() + payload));
    assert TextsOf(c.stream) + [] == TextsOf(c.stream);
  }

  lemma {:induction false} PacketsTexts(net: Network, c: Conn, ch: nat, frameType: nat, ts: nat,
      ps: seq<seq<byte>>, n: nat)
    requires c.Valid() && ch < CHANNELS && ts < TWO_32 && n <= |ps|
    ensures var r := OfferedPackets(net, c, ch, frameType, ts, ps, n);
            TextsOf(r.stream) == TextsOf(c.stream) && r.isGone == c.isGone
  {
    hide Offered, Unsent, TextsOf;
    if n > 0 {
      PacketsTexts(net, c, ch, frameType, ts, ps, n - 1);
      PacketTexts(net, OfferedPackets(net, c, ch, frameType, ts, ps, n - 1), ch, frameType,
                  if n == |ps| then 1 else 0, ts, ps[n - 1]);
    }
  }

  lemma {:induction false} StepTexts(net: Network, c: Conn, e: Event)
    requires c.Valid() && e.Valid()
    ensures TextsOf(Step(net, c, e).stream)
      == TextsOf(c.stream)
         + if e.ReplyEvent? && e.text != [] && !c.isGone && |c.socket.queue| < 300 then [e.text] else []
  {
    hide OfferedPackets, Payloads, Flushed, TornDown, Unsent, TextsOf, Appended;
    assert TextsOf(c.stream) + [] == TextsOf(c.stream);
    if e.MediaEvent? {
      var ps := Payloads(e.codec, e.frame.data);
      PacketsTexts(net, c, e.ch, e.frame.frameType, e.frame.Timestamp(e.now), ps, |ps|);
    } else if e.ReplyEvent? {
      ReplyJoins(net, c, e.text);
      TextsSnoc(c.stream, Message(e.text));
      assert c.stream + [] == c.stream;
    }
  }

  /** In every run the messages in the byte stream are exactly those responses, in order. */
  lemma {:induction false} RunAnswers(net: Network, c: Conn, es: seq<Event>)
    requires c.Valid() && AllValid(es)
    ensures TextsOf(Run(net, c, es).stream) == TextsOf(c.stream) + Answered(net, c, es)
  {
    hide Step, TextsOf;
    if es == [] {
      assert TextsOf(c.stream) + [] == TextsOf(c.stream);
    } else {
      var init, e := es[..|es| - 1], es[|es| - 1];
      RunAnswers(net, c, init);
      StepTexts(net, Run(net, c, init), e);
    }
  }

  /** The responses of a run. */
  function Replies(es: seq<Event>): seq<seq<byte>> {
    if es == [] then []
    else
      var e := es[|es| - 1];
      Replies(es[..|es| - 1]) + if e.ReplyEvent? && e.text != [] then [e.text] else []
  }

  lemma {:induction false} StepStays(net: Network, c: Conn, e: Event)
    requires c.Valid() && e.Valid() && !c.isGone && KeepsUpFrom(net, c)
    ensures !Step(net, c, e).isGone
  {
    hide OfferedPackets, Payloads, TornDown, Appended, Unsent, TextsOf;
    if e.MediaEvent? {
      var ps := Payloads(e.codec, e.frame.data);
      PacketsTexts(net, c, e.ch, e.frame.frameType, e.frame.Timestamp(e.now), ps, |ps|);
    } else if e.WritableEvent? {
      KeepsUp(net, c.socket);
    } else if e.ReplyEvent? {
      KeepsUp(net, Appended(c, e.text).socket);
    }
  }

  /** A client none of whose sends fails or is blocked is sent every response. */
  lemma {:induction false} EveryReply(net: Network, c: Conn, es: seq<Event>)
    requires c.Valid() && AllValid(es) && KeepsUpFrom(net, c) && !c.isGone
    ensures !Run(net, c, es).isGone && Answered(net, c, es) == Replies(es)
  {
    hide Step;
    if es != [] {
      var init := es[..|es| - 1];
      EveryReply(net, c, init);
      RunKeepsUp(net, c, init);
      StepStays(net, Run(net, c, init), es[|es| - 1]);
    }
  }

  /** In particular a new one: the messages in its byte stream are all responses, in order. */
  lemma {:induction false} NewClientIsAnswered(net: Network, ts: seq<nat>, ssrc: seq<nat>, es: seq<Event>)
    requires New(ts, ssrc) && AllValid(es) && forall k :: net(k).Took? && net(k).n > 0
    ensures TextsOf(Run(net, Initial(ts, ssrc), es).stream) == Replies(es)
  {
    EveryReply(net, Initial(ts, ssrc), es);
    RunAnswers(net, Initial(ts, ssrc), es);
  }
}
