/** What holds of one client over every run of requests, frames and writable sockets. */
module RtpRuns {
  import opened Bytes
  import opened RtpPacket
  import opened BufferWriters
  import opened RtpState
  import opened Packetizer
  import opened VideoSources
  import opened RtpConnections
  import opened MediaSessions

  /** What can happen to a client: the handlers of its requests, the responses sent to it, a socket
      that is writable again, and a frame of its session. */
  datatype Event =
    | SetUpEvent(ch: nat, transport: Transport, rtpChannel: nat)
    | BindFailsEvent(ch: nat)
    | ReplyEvent(text: seq<byte>)
    | PayloadTypeEvent(ch: nat, payload: nat)
    | PlayEvent
    | RecordEvent
    | TeardownEvent
    | WritableEvent
    | MediaEvent(ch: nat, codec: Codec, frame: AVFrame, now: nat)
  {
    predicate Valid() {
      match this
      case SetUpEvent(ch, transport, _) => ch < CHANNELS && !transport.NotSetUp?
      case BindFailsEvent(ch) => ch < CHANNELS
      case PayloadTypeEvent(ch, _) => ch < CHANNELS
      case MediaEvent(ch, _, frame, now) => ch < CHANNELS && frame.Valid() && now < TWO_32
      case _ => true
    }

    /** A frame that opens the gate: an I frame or one without a type. */
    predicate Opens() {
      MediaEvent? && (frame.frameType == 0 || frame.frameType == VIDEO_FRAME_I)
    }
  }

  predicate AllValid(es: seq<Event>) {
    forall k | 0 <= k < |es| :: es[k].Valid()
  }

  /** The event loop reports a writable socket only while it is watched for writing. */
  function Step(net: Network, c: Conn, e: Event): (r: Conn)
    requires c.Valid() && e.Valid()
    ensures r.Valid()
  {
    match e
    case SetUpEvent(ch, transport, rtpChannel) =>
      SetUp(c, ch, transport, if transport.OverTcp? then rtpChannel else c.channels[ch].rtpChannel)
    case BindFailsEvent(ch) => BindFailed(c, ch)
    case ReplyEvent(text) => Replied(net, c, text)
    case PayloadTypeEvent(ch, payload) => PayloadTypeSet(c, ch, payload)
    case PlayEvent => Played(c)
    case RecordEvent => Recorded(c)
    case TeardownEvent => TornDown(c)
    case WritableEvent => if c.isWriting then Written(net, c) else c
    case MediaEvent(ch, codec, frame, now) => OfferedFrame(net, c, ch, codec, frame, now)
  }

  function Run(net: Network, c: Conn, es: seq<Event>): (r: Conn)
    requires c.Valid() && AllValid(es)
    ensures r.Valid()
  {
    if es == [] then c else Step(net, Run(net, c, es[..|es| - 1]), es[|es| - 1])
  }

  // -- One packet -------------------------------------------------------------------------

  /** Whether the packets of a frame on `ch` go out at all. */
  predicate Passes(c: Conn, ch: nat, frameType: nat)
    requires |c.channels| == CHANNELS && ch < CHANNELS
  {
    !c.isClosed && c.channels[ch].Started() && (c.isIDRFrame || frameType == 0 || frameType == VIDEO_FRAME_I)
  }

  function HeaderOf(c: Conn, ch: nat, last: nat, ts: nat): (h: RtpHeader)
    requires c.Valid() && ch < CHANNELS && last < 2 && ts < TWO_32
    ensures h.Valid()
  {
    var m := c.channels[ch];
    RtpHeader(last, m.header.payload, m.packetSeq, ts, m.header.ssrc)
  }

  /** The packet that is handed over: dropped if it goes to a write queue that is full. */
  function PacketOf(c: Conn, ch: nat, last: nat, ts: nat, payload: seq<byte>): Sent
    requires c.Valid() && ch < CHANNELS && last < 2 && ts < TWO_32
  {
    var tcp := c.transport.OverTcp?;
    Sent(ch, tcp, c.channels[ch].rtpfd, if tcp then c.channels[ch].rtpChannel else 0,
         HeaderOf(c, ch, last, ts).Encode() + payload, tcp && c.QueueFull())
  }

  /** What the channel of a packet of `size` bytes has counted. */
  predicate Advanced(m: Channel, n: Channel, size: nat) {
    && n.packetSeq == (m.packetSeq + 1) % 0x1_0000
    && n.packetCount == (m.packetCount + 1) % TWO_64
    && n.octetCount == (m.octetCount + (TCP_HEAD + size)) % TWO_64
    && n.isPlay == m.isPlay && n.isRecord == m.isRecord
  }

  lemma {:induction false} AttemptedIs(net: Network, c: Conn, ch: nat, rtp: seq<byte>)
    requires c.Valid() && ch < CHANNELS && !c.isClosed
    ensures var r, tcp, m := Attempted(net, c, ch, rtp), c.transport.OverTcp?, c.channels[ch];
            && r.transport == c.transport && r.isIDRFrame == c.isIDRFrame
            && (r.sent == c.sent + [Sent(ch, tcp, m.rtpfd, if tcp then m.rtpChannel else 0, rtp, tcp && c.QueueFull())]
                || (r.sent == c.sent && r.isClosed && !tcp))
            && (if r.isClosed then r.socket.attempts > c.socket.attempts && Refused(net(r.socket.attempts - 1), tcp)
                else r.channels == c.channels)
            && (forall k | 0 <= k < CHANNELS :: SameLine(c.channels[k], r.channels[k]))
  {
    hide FlushedTo, Unsent;
  }

  /** What packets do not change of a channel. */
  predicate SameLine(m: Channel, n: Channel) {
    && n.isSetup == m.isSetup && n.rtpfd == m.rtpfd && n.rtpChannel == m.rtpChannel && (n.Started() ==> m.Started())
    && n.header.payload == m.header.payload && n.header.ssrc == m.header.ssrc
  }

  lemma {:induction false} OfferedIdle(net: Network, c: Conn, ch: nat, frameType: nat, last: nat, ts: nat,
      payload: seq<byte>)
    requires c.Valid() && ch < CHANNELS && last < 2 && ts < TWO_32 && !Passes(c, ch, frameType)
    ensures var r := Offered(net, c, ch, frameType, last, ts, payload);
            && r.transport == c.transport && r.isClosed == c.isClosed && r.socket == c.socket
            && r.sent == c.sent && r.stream == c.stream && !Passes(r, ch, frameType)
            && (r.isIDRFrame <==> c.isIDRFrame || frameType == 0 || frameType == VIDEO_FRAME_I)
            && (forall k | 0 <= k < CHANNELS :: SameLine(c.channels[k], r.channels[k]))
            && (!c.isClosed ==> r.channels == c.channels)
  {
    hide Attempted, RtpHeader.Encode, Unsent;
  }

  lemma {:induction false} OfferedPasses(net: Network, c: Conn, ch: nat, frameType: nat, last: nat, ts: nat,
      payload: seq<byte>)
    requires c.Valid() && ch < CHANNELS && last < 2 && ts < TWO_32 && Passes(c, ch, frameType)
    ensures var r, s := Offered(net, c, ch, frameType, last, ts, payload), PacketOf(c, ch, last, ts, payload);
            && r.transport == c.transport && r.isIDRFrame
            && (forall k | 0 <= k < CHANNELS :: SameLine(c.channels[k], r.channels[k]))
            && (!r.isClosed ==> forall k | 0 <= k < CHANNELS && k != ch :: r.channels[k] == c.channels[k])
            && (r.sent == c.sent + [s] || (r.sent == c.sent && r.isClosed && !s.tcp))
            && (r.isClosed ==> r.socket.attempts > c.socket.attempts && Refused(net(r.socket.attempts - 1), s.tcp))
            && (!r.isClosed ==> Passes(r, ch, frameType) && Advanced(c.channels[ch], r.channels[ch], |s.rtp|))
  {
    hide Attempted, RtpHeader.Encode, Unsent;
    var n := Numbered(Gated(c, frameType), ch, last, ts);
    assert n.channels[ch].header == HeaderOf(c, ch, last, ts);
    AttemptedIs(net, n, ch, n.channels[ch].header.Encode() + payload);
  }

  /** What a client makes of one packet. */
  lemma {:induction false} OfferedIs(net: Network, c: Conn, ch: nat, frameType: nat, last: nat, ts: nat,
      payload: seq<byte>)
    requires c.Valid() && ch < CHANNELS && last < 2 && ts < TWO_32
    ensures var r, s := Offered(net, c, ch, frameType, last, ts, payload), PacketOf(c, ch, last, ts, payload);
            && r.transport == c.transport && (c.isClosed ==> r.isClosed)
            && (r.isIDRFrame <==> c.isIDRFrame || frameType == 0 || frameType == VIDEO_FRAME_I)
            && (forall k | 0 <= k < CHANNELS :: SameLine(c.channels[k], r.channels[k]))
            && (!r.isClosed ==> forall k | 0 <= k < CHANNELS && k != ch :: r.channels[k] == c.channels[k])
            && if Passes(c, ch, frameType)
               then && (r.sent == c.sent + [s] || (r.sent == c.sent && r.isClosed && !s.tcp))
                    && (r.isClosed ==> r.socket.attempts > c.socket.attempts && Refused(net(r.socket.attempts - 1), s.tcp))
                    && (!r.isClosed ==> Passes(r, ch, frameType) && Advanced(c.channels[ch], r.channels[ch], |s.rtp|))
               else r.sent == c.sent && r.socket == c.socket && r.isClosed == c.isClosed && !Passes(r, ch, frameType)
                    && r.stream == c.stream && (!c.isClosed ==> r.channels == c.channels)
  {
    hide Offered, RtpHeader.Encode, Unsent, Advanced, SameLine, HeaderOf;
    if Passes(c, ch, frameType) {
      OfferedPasses(net, c, ch, frameType, last, ts, payload);
    } else {
      OfferedIdle(net, c, ch, frameType, last, ts, payload);
    }
  }

  // -- What the requests alone decide -----------------------------------------------------

  /** A network that always takes a byte. */
  function Perfect(): Network { _ => Took(1) }

  /** A client as the requests and frames alone make it. */
  function Asked(c: Conn, es: seq<Event>): (r: Conn)
    requires c.Valid() && AllValid(es)
    ensures r.Valid()
  {
    Run(Perfect(), c, es)
  }

  datatype Line = Line(rtpfd: Descriptor, isSetup: bool, isPlay: bool, isRecord: bool)

  function LineOf(m: Channel): Line { Line(m.rtpfd, m.isSetup, m.isPlay, m.isRecord) }

  /** What the requests decide: transport, gate, and the descriptors and flags of the channels. */
  datatype Control = Control(transport: Transport, isIDRFrame: bool, first: Line, second: Line)

  function ControlOf(c: Conn): Control
    requires |c.channels| == CHANNELS
  {
    Control(c.transport, c.isIDRFrame, LineOf(c.channels[0]), LineOf(c.channels[1]))
  }

  lemma {:induction false} PacketControl(net: Network, c: Conn, ch: nat, frameType: nat, last: nat, ts: nat,
      payload: seq<byte>)
    requires c.Valid() && ch < CHANNELS && last < 2 && ts < TWO_32
    ensures var r := Offered(net, c, ch, frameType, last, ts, payload);
            !r.isClosed ==>
              ControlOf(r) == ControlOf(c).(isIDRFrame := c.isIDRFrame || frameType == 0 || frameType == VIDEO_FRAME_I)
    ensures net == Perfect() ==> Offered(net, c, ch, frameType, last, ts, payload).isClosed == c.isClosed
  {
    hide Offered, RtpHeader.Encode, Unsent;
    OfferedIs(net, c, ch, frameType, last, ts, payload);
  }

  lemma {:induction false} PacketsControl(net: Network, c: Conn, ch: nat, frameType: nat, ts: nat,
      ps: seq<seq<byte>>, n: nat)
    requires c.Valid() && ch < CHANNELS && ts < TWO_32 && n <= |ps|
    ensures var r := OfferedPackets(net, c, ch, frameType, ts, ps, n);
            && (c.isClosed ==> r.isClosed)
            && (!r.isClosed ==> ControlOf(r) == ControlOf(c).(
                  isIDRFrame := c.isIDRFrame || (n > 0 && (frameType == 0 || frameType == VIDEO_FRAME_I))))
            && (net == Perfect() ==> r.isClosed == c.isClosed)
  {
    hide Offered, RtpHeader.Encode, Unsent, ControlOf;
    if n == 0 {
      assert ControlOf(c) == ControlOf(c).(isIDRFrame := c.isIDRFrame) by { GateOf(c); }
    } else {
      var d := OfferedPackets(net, c, ch, frameType, ts, ps, n - 1);
      PacketsControl(net, c, ch, frameType, ts, ps, n - 1);
      PacketControl(net, d, ch, frameType, if n == |ps| then 1 else 0, ts, ps[n - 1]);
      OfferedIs(net, d, ch, frameType, if n == |ps| then 1 else 0, ts, ps[n - 1]);
      GateOf(c);
      GateOf(d);
    }
  }

  lemma {:induction false} GateOf(c: Conn)
    requires |c.channels| == CHANNELS
    ensures ControlOf(c).isIDRFrame == c.isIDRFrame
  {
  }

  /** Two networks: as long as neither closes the client, the requests decide the same. */
  lemma {:induction false} StepControl(net: Network, c: Conn, d: Conn, e: Event)
    requires c.Valid() && d.Valid() && e.Valid() && ControlOf(c) == ControlOf(d) && !d.isClosed
    requires !Step(net, c, e).isClosed
    ensures var r, s := Step(net, c, e), Step(Perfect(), d, e); !c.isClosed && !s.isClosed && ControlOf(r) == ControlOf(s)
  {
    hide OfferedPackets, Payloads, Flushed, FlushedTo, Unsent, Appended, Perfect;
    if e.MediaEvent? {
      var ps := Payloads(e.codec, e.frame.data);
      PacketsControl(net, c, e.ch, e.frame.frameType, e.frame.Timestamp(e.now), ps, |ps|);
      PacketsControl(Perfect(), d, e.ch, e.frame.frameType, e.frame.Timestamp(e.now), ps, |ps|);
    } else {
      NeverRefused();
      var r, s := Step(net, c, e), Step(Perfect(), d, e);
      if e.SetUpEvent? || e.BindFailsEvent? || e.PayloadTypeEvent? {
        assert ControlOf(r) == ControlOf(s);
      } else {
        assert r.channels == c.channels || e.PlayEvent? || e.RecordEvent?;
      }
    }
  }

  lemma {:induction false} NeverRefused()
    ensures forall k: nat :: Perfect()(k) == Took(1)
  {
  }

  lemma {:induction false} RunControl(net: Network, c: Conn, es: seq<Event>)
    requires c.Valid() && AllValid(es) && !Run(net, c, es).isClosed
    ensures !Asked(c, es).isClosed && ControlOf(Run(net, c, es)) == ControlOf(Asked(c, es))
  {
    hide Step, ControlOf;
    if es != [] {
      var init, e := es[..|es| - 1], es[|es| - 1];
      StepCloses(net, Run(net, c, init), e);
      RunControl(net, c, init);
      StepControl(net, Run(net, c, init), Asked(c, init), e);
    }
  }

  lemma {:induction false} StepCloses(net: Network, c: Conn, e: Event)
    requires c.Valid() && e.Valid()
    ensures c.isClosed ==> Step(net, c, e).isClosed
  {
    StepIsGuarded(net, c, e, 0);
  }

  /** The k-th event is a frame that goes out, as far as the requests decide it. */
  predicate Sends(c: Conn, es: seq<Event>, k: nat)
    requires c.Valid() && AllValid(es) && k < |es|
  {
    es[k].MediaEvent? && Passes(Asked(c, es[..k]), es[k].ch, es[k].frame.frameType)
  }

  /** Whenever a frame goes out, the descriptor of its channel is the RTSP socket if and only if the
      transport is TCP. */
  ghost predicate Untangled(c: Conn, es: seq<Event>)
    requires c.Valid() && AllValid(es)
  {
    forall k | 0 <= k < |es| && Sends(c, es, k) :: Asked(c, es[..k]).OwnStream(es[k].ch)
  }

  /** ... on channel `ch` it is a socket of the current transport. */
  ghost predicate Matching(c: Conn, es: seq<Event>, ch: nat)
    requires c.Valid() && AllValid(es)
  {
    forall k | 0 <= k < |es| && Sends(c, es, k) && es[k].ch == ch :: Asked(c, es[..k]).Matched(ch)
  }

  lemma {:induction false} UntangledSnoc(c: Conn, es: seq<Event>)
    requires c.Valid() && AllValid(es) && es != []
    ensures var n := |es| - 1;
            Untangled(c, es) <==> Untangled(c, es[..n]) && (Sends(c, es, n) ==> Asked(c, es[..n]).OwnStream(es[n].ch))
  {
    hide Asked, Passes, Conn.OwnStream;
    var n := |es| - 1;
    assert forall k | 0 <= k < n :: es[..n][..k] == es[..k] && es[..n][k] == es[k];
  }

  lemma {:induction false} MatchingSnoc(c: Conn, es: seq<Event>, ch: nat)
    requires c.Valid() && AllValid(es) && es != []
    ensures var n := |es| - 1;
            Matching(c, es, ch)
            <==> Matching(c, es[..n], ch) && (Sends(c, es, n) && es[n].ch == ch ==> Asked(c, es[..n]).Matched(ch))
  {
    hide Asked, Passes, Conn.Matched;
    var n := |es| - 1;
    assert forall k | 0 <= k < n :: es[..n][..k] == es[..k] && es[..n][k] == es[k];
  }

  /** Whatever the network does, a frame goes out over the descriptors that the requests decide. */
  lemma {:induction false} AsAsked(net: Network, c: Conn, es: seq<Event>, ch: nat, frameType: nat)
    requires c.Valid() && AllValid(es) && ch < CHANNELS && !Run(net, c, es).isClosed
    ensures var r, a := Run(net, c, es), Asked(c, es);
            && (Passes(r, ch, frameType) <==> Passes(a, ch, frameType))
            && (r.OwnStream(ch) <==> a.OwnStream(ch)) && (r.Matched(ch) <==> a.Matched(ch))
            && r.transport == a.transport
  {
    hide Run, Asked;
    RunControl(net, c, es);
  }

  /** A client whose channels are all set up over one transport is never tangled. */
  predicate OneTransport(es: seq<Event>, tcp: bool) {
    forall k | 0 <= k < |es| :: !es[k].BindFailsEvent? && (es[k].SetUpEvent? ==> es[k].transport.OverTcp? == tcp)
  }

  ghost predicate Uniform(c: Conn, tcp: bool)
    requires c.Valid()
  {
    && (c.transport.OverTcp? ==> tcp)
    && forall k | 0 <= k < CHANNELS :: (c.channels[k].Started() ==> c.channels[k].isSetup)
         && (c.channels[k].isSetup ==>
               c.transport.OverTcp? == tcp && c.channels[k].rtpfd == if tcp then RtspSocket else DatagramSocket)
  }

  lemma {:induction false} OneTransportUniform(ts: seq<nat>, ssrc: seq<nat>, es: seq<Event>, tcp: bool)
    requires New(ts, ssrc) && AllValid(es) && OneTransport(es, tcp)
    ensures Uniform(Asked(Initial(ts, ssrc), es), tcp)
  {
    hide Step, Perfect;
    if es != [] {
      var init, e := es[..|es| - 1], es[|es| - 1];
      assert forall k | 0 <= k < |init| :: init[k] == es[k];
      OneTransportUniform(ts, ssrc, init, tcp);
      assert es[|es| - 1] == e;
      StepUniform(Asked(Initial(ts, ssrc), init), e, tcp);
    }
  }

  lemma {:induction false} StepUniform(c: Conn, e: Event, tcp: bool)
    requires c.Valid() && e.Valid() && Uniform(c, tcp)
    requires !e.BindFailsEvent? && (e.SetUpEvent? ==> e.transport.OverTcp? == tcp)
    ensures Uniform(Step(Perfect(), c, e), tcp)
  {
    hide OfferedPackets, Payloads, Written, Replied, TornDown, Unsent, Perfect, SetUp;
    if e.MediaEvent? {
      var ps := Payloads(e.codec, e.frame.data);
      PacketsUniform(Perfect(), c, e.ch, e.frame.frameType, e.frame.Timestamp(e.now), ps, |ps|, tcp);
    } else if e.SetUpEvent? {
      SetUpUniform(c, e.ch, e.transport, if e.transport.OverTcp? then e.rtpChannel else c.channels[e.ch].rtpChannel);
    } else if e.WritableEvent? || e.ReplyEvent? || e.TeardownEvent? {
      SocketStep(Perfect(), c, e);
    }
  }

  lemma {:induction false} SocketStep(net: Network, c: Conn, e: Event)
    requires c.Valid() && e.Valid() && (e.WritableEvent? || e.ReplyEvent? || e.TeardownEvent?)
    ensures var r := Step(net, c, e);
            && r.transport == c.transport && r.isIDRFrame == c.isIDRFrame && r.sent == c.sent
            && (c.isClosed || e.TeardownEvent? ==> r.isClosed) && (!r.isClosed ==> r.channels == c.channels)
            && forall k | 0 <= k < CHANNELS :: SameLine(c.channels[k], r.channels[k])
  {
    hide Appended, Flushed, FlushedTo, Unsent;
  }

  lemma {:induction false} SetUpUniform(c: Conn, ch: nat, transport: Transport, rtpChannel: nat)
    requires c.Valid() && ch < CHANNELS && Uniform(c, transport.OverTcp?)
    ensures Uniform(SetUp(c, ch, transport, rtpChannel), transport.OverTcp?)
  {
  }

  lemma {:induction false} PacketsUniform(net: Network, c: Conn, ch: nat, frameType: nat, ts: nat,
      ps: seq<seq<byte>>, n: nat, tcp: bool)
    requires c.Valid() && ch < CHANNELS && ts < TWO_32 && n <= |ps| && Uniform(c, tcp)
    ensures Uniform(OfferedPackets(net, c, ch, frameType, ts, ps, n), tcp)
  {
    hide Offered, RtpHeader.Encode, Unsent;
    if n > 0 {
      var d, last := OfferedPackets(net, c, ch, frameType, ts, ps, n - 1), if n == |ps| then 1 else 0;
      PacketsUniform(net, c, ch, frameType, ts, ps, n - 1, tcp);
      OfferedIs(net, d, ch, frameType, last, ts, ps[n - 1]);
    }
  }

  /** So SETUPs that agree on TCP or on datagrams, and never fail, leave nothing tangled. */
  lemma {:induction false} AgreeingSetups(ts: seq<nat>, ssrc: seq<nat>, es: seq<Event>, tcp: bool, ch: nat)
    requires New(ts, ssrc) && AllValid(es) && OneTransport(es, tcp)
    ensures Untangled(Initial(ts, ssrc), es) && Matching(Initial(ts, ssrc), es, ch)
  {
    hide Asked, Initial;
    var c := Initial(ts, ssrc);
    forall k | 0 <= k < |es| && Sends(c, es, k)
      ensures Asked(c, es[..k]).OwnStream(es[k].ch) && Asked(c, es[..k]).Matched(es[k].ch)
    {
      OneTransportUniform(ts, ssrc, es[..k], tcp);
    }
  }

  // -- The byte stream of an interleaved client ---------------------------------------------

  predicate Accepted(s: Sent) { s.tcp && !s.dropped }

  /** The packets put in the write queue. */
  function Queued(sent: seq<Sent>): seq<Chunk> {
    if sent == [] then []
    else
      var s := sent[|sent| - 1];
      Queued(sent[..|sent| - 1]) + if Accepted(s) then [Media(s.rtpChannel % 256, s.rtp)] else []
  }

  /** The packets among the chunks of a stream. */
  function MediaOf(cs: seq<Chunk>): seq<Chunk> {
    if cs == [] then []
    else MediaOf(cs[..|cs| - 1]) + if cs[|cs| - 1].Media? then [cs[|cs| - 1]] else []
  }

  /** What the socket has taken, with what is queued for it, is what has been put in the queue; that
      is the packets accepted, in order, and whole messages; and the queue keeps to its capacity. */
  ghost predicate Streams(framing: Framing, c: Conn) {
    && c.socket.wire + Flatten(c.socket.queue) == InterleaveAll(c.stream)
    && |c.socket.queue| <= QUEUE
    && MediaOf(c.stream) == Queued(c.sent)
    && forall k | 0 <= k < |c.stream| :: c.stream[k].Fits(framing)
  }

  lemma {:induction false} QueuedSnoc(sent: seq<Sent>, s: Sent)
    ensures Queued(sent + [s]) == Queued(sent) + if Accepted(s) then [Media(s.rtpChannel % 256, s.rtp)] else []
  {
    assert (sent + [s])[..|sent + [s]| - 1] == sent;
  }

  lemma {:induction false} MediaSnoc(cs: seq<Chunk>, c: Chunk)
    ensures MediaOf(cs + [c]) == MediaOf(cs) + if c.Media? then [c] else []
    ensures InterleaveAll(cs + [c]) == InterleaveAll(cs) + c.Bytes()
  {
    hide Chunk.Bytes;
    assert (cs + [c])[..|cs + [c]| - 1] == cs;
    InterleaveAllConcat(cs, [c]);
    assert InterleaveAll([c][1..]) == [];
    assert c.Bytes() + [] == c.Bytes();
  }

  lemma {:induction false} LowChannel(channel: nat, rtp: seq<byte>)
    ensures Media(channel % 256, rtp).Bytes() == Interleave(channel, rtp)
  {
  }

  /** One more chunk at the end of the queue. */
  lemma {:induction false} OneMoreChunk(wire: seq<byte>, queue: seq<seq<byte>>, stream: seq<Chunk>, c: Chunk)
    requires wire + Flatten(queue) == InterleaveAll(stream)
    ensures wire + Flatten(queue + [c.Bytes()]) == InterleaveAll(stream + [c])
  {
    hide Chunk.Bytes, InterleaveAll, Flatten;
    MediaSnoc(stream, c);
    FlattenConcat(queue, [c.Bytes()]);
    FlattenOne(c.Bytes());
    AtTheEnd(wire, Flatten(queue), c.Bytes());
  }

  lemma {:induction false} EnqueuedStreams(framing: Framing, c: Conn, ch: nat, rtp: seq<byte>)
    requires c.Valid() && ch < CHANNELS && Streams(framing, c) && |rtp| < 0x1_0000
    ensures Streams(framing, Enqueued(c, ch, rtp))
  {
    hide InterleaveAll, Interleave, Chunk.Bytes, Unsent, Queued, MediaOf, Flatten;
    var r := Enqueued(c, ch, rtp);
    var s := r.sent[|c.sent|];
    var chunk := Media(s.rtpChannel % 256, rtp);
    QueuedSnoc(c.sent, s);
    if !s.dropped {
      LowChannel(s.rtpChannel, rtp);
      MediaSnoc(c.stream, chunk);
      OneMoreChunk(c.socket.wire, c.socket.queue, c.stream, chunk);
    } else {
      assert Queued(c.sent) + [] == Queued(c.sent);
    }
  }

  lemma {:induction false} AppendedStreams(framing: Framing, c: Conn, text: seq<byte>)
    requires c.Valid() && Streams(framing, c) && (text != [] ==> Delimited(framing, text))
    ensures Streams(framing, Appended(c, text))
  {
    hide InterleaveAll, Unsent, Queued, MediaOf, Flatten, Delimited;
    if text != [] && !c.QueueFull() {
      MediaSnoc(c.stream, Message(text));
      assert MediaOf(c.stream) + [] == MediaOf(c.stream);
      OneMoreChunk(c.socket.wire, c.socket.queue, c.stream, Message(text));
    }
  }

  lemma {:induction false} AtTheEnd(a: seq<byte>, b: seq<byte>, c: seq<byte>)
    ensures a + (b + c) == (a + b) + c
  {
  }

  lemma {:induction false} AttemptedStreams(framing: Framing, net: Network, c: Conn, ch: nat, rtp: seq<byte>)
    requires c.Valid() && ch < CHANNELS && Streams(framing, c) && |rtp| < 0x1_0000 && c.OwnStream(ch)
    ensures Streams(framing, Attempted(net, c, ch, rtp))
  {
    hide Flushed, Unsent, Queued, MediaOf, Flatten, Enqueued, InterleaveAll, Sent.Bytes, Chunk.Fits;
    if c.transport.OverTcp? {
      EnqueuedStreams(framing, c, ch, rtp);
    } else {
      QueuedSnoc(c.sent, Sent(ch, false, c.channels[ch].rtpfd, 0, rtp, false));
      assert Queued(c.sent) + [] == Queued(c.sent);
    }
  }

  lemma {:induction false} OfferedStreams(framing: Framing, net: Network, c: Conn, ch: nat, frameType: nat, last: nat,
      ts: nat, payload: seq<byte>)
    requires c.Valid() && ch < CHANNELS && last < 2 && ts < TWO_32 && Streams(framing, c) && |payload| <= MAX_PAYLOAD
    requires Passes(c, ch, frameType) ==> c.OwnStream(ch)
    ensures Streams(framing, Offered(net, c, ch, frameType, last, ts, payload))
  {
    hide Attempted, RtpHeader.Encode, Unsent, Queued, MediaOf, Flatten, InterleaveAll, Chunk.Fits;
    var n := Numbered(Gated(c, frameType), ch, last, ts);
    if !c.isClosed && n.Active(ch) {
      AttemptedStreams(framing, net, n, ch, n.channels[ch].header.Encode() + payload);
    }
  }

  /** Packets do not change transports and descriptors, and do not make a frame pass. */
  lemma {:induction false} PacketsKeepLines(net: Network, c: Conn, ch: nat, frameType: nat, ts: nat,
      ps: seq<seq<byte>>, n: nat)
    requires c.Valid() && ch < CHANNELS && ts < TWO_32 && n <= |ps|
    ensures var r := OfferedPackets(net, c, ch, frameType, ts, ps, n);
            && r.transport == c.transport && (forall k | 0 <= k < CHANNELS :: SameLine(c.channels[k], r.channels[k]))
            && (Passes(r, ch, frameType) ==> Passes(c, ch, frameType))
            && (c.isClosed ==> r.isClosed)
  {
    hide Offered, RtpHeader.Encode, Unsent;
    if n > 0 {
      PacketsKeepLines(net, c, ch, frameType, ts, ps, n - 1);
      OfferedIs(net, OfferedPackets(net, c, ch, frameType, ts, ps, n - 1), ch, frameType,
                if n == |ps| then 1 else 0, ts, ps[n - 1]);
    }
  }

  lemma {:induction false} PacketsStream(framing: Framing, net: Network, c: Conn, ch: nat, frameType: nat, ts: nat,
      ps: seq<seq<byte>>, n: nat)
    requires c.Valid() && ch < CHANNELS && ts < TWO_32 && n <= |ps| && Streams(framing, c)
    requires forall k | 0 <= k < |ps| :: |ps[k]| <= MAX_PAYLOAD
    requires Passes(c, ch, frameType) ==> c.OwnStream(ch)
    ensures Streams(framing, OfferedPackets(net, c, ch, frameType, ts, ps, n))
  {
    hide Offered, Streams, Unsent, Passes;
    if n > 0 {
      PacketsStream(framing, net, c, ch, frameType, ts, ps, n - 1);
      PacketsKeepLines(net, c, ch, frameType, ts, ps, n - 1);
      OfferedStreams(framing, net, OfferedPackets(net, c, ch, frameType, ts, ps, n - 1), ch, frameType,
                     if n == |ps| then 1 else 0, ts, ps[n - 1]);
    }
  }

  lemma {:induction false} StepStreams(framing: Framing, net: Network, c: Conn, e: Event)
    requires c.Valid() && e.Valid() && Streams(framing, c)
    requires e.MediaEvent? && Passes(c, e.ch, e.frame.frameType) ==> c.OwnStream(e.ch)
    requires e.ReplyEvent? && e.text != [] ==> Delimited(framing, e.text)
    ensures Streams(framing, Step(net, c, e))
  {
    hide OfferedPackets, Payloads, Flushed, FlushedTo, Unsent, Queued, MediaOf, Flatten, InterleaveAll, Chunk.Fits,
         Appended, Delimited;
    if e.MediaEvent? {
      var ps := Payloads(e.codec, e.frame.data);
      PacketsStream(framing, net, c, e.ch, e.frame.frameType, e.frame.Timestamp(e.now), ps, |ps|);
    } else if e.ReplyEvent? {
      AppendedStreams(framing, c, e.text);
    }
  }

  /** The arguments of a new connection. */
  predicate New(ts: seq<nat>, ssrc: seq<nat>) {
    |ts| == |ssrc| == CHANNELS && forall k | 0 <= k < CHANNELS :: ts[k] < TWO_32 && ssrc[k] < TWO_32
  }

  /** A client can tell where the responses end. */
  ghost predicate Framed(framing: Framing, es: seq<Event>) {
    forall k | 0 <= k < |es| && es[k].ReplyEvent? && es[k].text != [] :: Delimited(framing, es[k].text)
  }

  lemma {:induction false} RunStreams(framing: Framing, net: Network, ts: seq<nat>, ssrc: seq<nat>, es: seq<Event>)
    requires New(ts, ssrc) && AllValid(es) && Framed(framing, es) && Untangled(Initial(ts, ssrc), es)
    ensures Streams(framing, Run(net, Initial(ts, ssrc), es))
  {
    hide Step, Untangled, Passes, Conn.OwnStream, Delimited, Asked;
    if es != [] {
      var c, init, e := Initial(ts, ssrc), es[..|es| - 1], es[|es| - 1];
      assert forall k | 0 <= k < |init| :: init[k] == es[k];
      UntangledSnoc(c, es);
      RunStreams(framing, net, ts, ssrc, init);
      if e.MediaEvent? {
        ClosedOrAsAsked(net, c, init, e.ch, e.frame.frameType);
      }
      StepStreams(framing, net, Run(net, c, init), e);
    }
  }

  lemma {:induction false} ClosedOrAsAsked(net: Network, c: Conn, es: seq<Event>, ch: nat, frameType: nat)
    requires c.Valid() && AllValid(es) && ch < CHANNELS
    ensures var r, a := Run(net, c, es), Asked(c, es);
            Passes(r, ch, frameType) ==> Passes(a, ch, frameType) && r.OwnStream(ch) == a.OwnStream(ch)
  {
    hide Run, Asked;
    if !Run(net, c, es).isClosed {
      AsAsked(net, c, es, ch, frameType);
    }
  }

  /** What the socket has taken is a prefix of what was put in the queue, and comes apart into an
      initial run of whole packets and messages; when the queue is empty, into all of them. */
  ghost predicate Splits(framing: Framing, r: Conn) {
    var d := Deinterleave(framing, r.socket.wire);
    && MediaOf(r.stream) == Queued(r.sent)
    && r.socket.wire <= InterleaveAll(r.stream)
    && d.chunks <= r.stream && r.socket.wire == InterleaveAll(d.chunks) + d.rest
    && (r.socket.queue == [] ==> d == Deinterleaving(r.stream, []))
  }

  lemma {:induction false} StreamsSplit(framing: Framing, r: Conn)
    requires Streams(framing, r)
    ensures Splits(framing, r)
  {
    hide Deinterleave, Queued, MediaOf, InterleaveAll, Chunk.Fits;
    assert r.socket.queue == [] ==> r.socket.wire + Flatten(r.socket.queue) == r.socket.wire;
    PrefixSplits(framing, r.stream, r.socket.wire);
  }

  // -- When the byte stream is broken -------------------------------------------------------

  /** With nothing queued: `n` packets have left the stream short of them, or put bytes of their own
      into it. */
  ghost predicate Broken(c: Conn, r: Conn, n: nat) {
    && c.Valid() && r.Valid() && r.socket.queue == []
    && if c.transport.OverTcp?
       then r.socket.wire == c.socket.wire && |InterleaveAll(r.stream)| >= |InterleaveAll(c.stream)| + n
       else |r.socket.wire| >= |c.socket.wire| + n && r.stream == c.stream
  }

  lemma {:induction false} AttemptBreaks(c: Conn, ch: nat, rtp: seq<byte>)
    requires c.Valid() && ch < CHANNELS && c.socket.queue == [] && !c.OwnStream(ch) && rtp != []
    ensures Broken(c, Attempted(Perfect(), c, ch, rtp), 1)
  {
    hide InterleaveAll, Flushed, Interleave;
    var m := c.channels[ch];
    if c.transport.OverTcp? {
      KeepsUp(Perfect(), Enqueued(c, ch, rtp).socket);
      MediaSnoc(c.stream, Media(m.rtpChannel % 256, rtp));
    }
  }

  lemma {:induction false} PacketBreaks(c: Conn, ch: nat, frameType: nat, last: nat, ts: nat, payload: seq<byte>)
    requires c.Valid() && ch < CHANNELS && last < 2 && ts < TWO_32
    requires c.socket.queue == [] && !c.OwnStream(ch) && Passes(c, ch, frameType)
    ensures Broken(c, Offered(Perfect(), c, ch, frameType, last, ts, payload), 1)
  {
    hide InterleaveAll, RtpHeader.Encode, Perfect, Attempted;
    var n := Numbered(Gated(c, frameType), ch, last, ts);
    AttemptBreaks(n, ch, n.channels[ch].header.Encode() + payload);
  }

  lemma {:induction false} PacketsBreak(c: Conn, ch: nat, frameType: nat, ts: nat, ps: seq<seq<byte>>, n: nat)
    requires c.Valid() && ch < CHANNELS && ts < TWO_32 && n <= |ps|
    requires c.socket.queue == [] && !c.OwnStream(ch) && Passes(c, ch, frameType)
    ensures var r := OfferedPackets(Perfect(), c, ch, frameType, ts, ps, n);
            Broken(c, r, n) && r.transport == c.transport && !r.OwnStream(ch) && Passes(r, ch, frameType)
  {
    hide Offered, InterleaveAll, RtpHeader.Encode, Unsent, Perfect;
    if n > 0 {
      var d, last := OfferedPackets(Perfect(), c, ch, frameType, ts, ps, n - 1), if n == |ps| then 1 else 0;
      PacketsBreak(c, ch, frameType, ts, ps, n - 1);
      PacketBreaks(d, ch, frameType, last, ts, ps[n - 1]);
      OfferedIs(Perfect(), d, ch, frameType, last, ts, ps[n - 1]);
      PacketControl(Perfect(), d, ch, frameType, last, ts, ps[n - 1]);
    }
  }

  lemma {:induction false} BrokenNeverSplits(framing: Framing, c: Conn, r: Conn, n: nat)
    requires Streams(framing, c) && c.socket.queue == [] && Broken(c, r, n) && n > 0
    ensures !Splits(framing, r)
  {
    hide Deinterleave, Queued, MediaOf, Chunk.Fits, InterleaveAll;
    assert c.socket.wire + [] == c.socket.wire;
    assert InterleaveAll(r.stream) + [] == InterleaveAll(r.stream);
  }

  lemma {:induction false} StepBreaks(framing: Framing, c: Conn, e: Event)
    requires c.Valid() && e.Valid() && Streams(framing, c) && c.socket.queue == []
    requires e.MediaEvent? && Passes(c, e.ch, e.frame.frameType) && !c.OwnStream(e.ch)
    ensures !Splits(framing, Step(Perfect(), c, e))
  {
    hide OfferedPackets, Payloads, Streams, Splits, Broken, Perfect, Passes, Conn.OwnStream;
    var ps := Payloads(e.codec, e.frame.data);
    PacketsBreak(c, e.ch, e.frame.frameType, e.frame.Timestamp(e.now), ps, |ps|);
    BrokenNeverSplits(framing, c, Step(Perfect(), c, e), |ps|);
  }

  ghost predicate AlwaysSplits(framing: Framing, c: Conn, es: seq<Event>)
    requires c.Valid() && AllValid(es)
  {
    forall net: Network, k | 0 <= k <= |es| :: Splits(framing, Run(net, c, es[..k]))
  }

  lemma {:induction false} Tangled(framing: Framing, ts: seq<nat>, ssrc: seq<nat>, es: seq<Event>) returns (k: nat)
    requires New(ts, ssrc) && AllValid(es) && Framed(framing, es) && !Untangled(Initial(ts, ssrc), es)
    ensures k <= |es| && !Splits(framing, Run(Perfect(), Initial(ts, ssrc), es[..k]))
  {
    hide Step, Untangled, Passes, Conn.OwnStream, Delimited, Splits, Perfect;
    var c := Initial(ts, ssrc);
    NothingTangled(c);
    assert es != [];
    var init, e := es[..|es| - 1], es[|es| - 1];
    assert forall k | 0 <= k < |init| :: init[k] == es[k];
    UntangledSnoc(c, es);
    if Untangled(c, init) {
      k := |es|;
      RunStreams(framing, Perfect(), ts, ssrc, init);
      RunDrains(c, init);
      StepBreaks(framing, Asked(c, init), e);
      assert es[..k] == es;
    } else {
      k := Tangled(framing, ts, ssrc, init);
      assert init[..k] == es[..k];
    }
  }

  lemma {:induction false} NothingTangled(c: Conn)
    requires c.Valid()
    ensures Untangled(c, [])
  {
  }

  /** In every run, and at every moment of it, whatever the socket takes and when: what it has taken
      comes apart into whole packets and whole messages, if and only if no frame goes out while the
      descriptor of its channel and the transport disagree about TCP. */
  lemma {:induction false} TcpStreamSplits(framing: Framing, ts: seq<nat>, ssrc: seq<nat>, es: seq<Event>)
    requires New(ts, ssrc) && AllValid(es) && Framed(framing, es)
    ensures AlwaysSplits(framing, Initial(ts, ssrc), es) <==> Untangled(Initial(ts, ssrc), es)
  {
    hide Run, Splits, Delimited, Initial, Asked;
    var c := Initial(ts, ssrc);
    if Untangled(c, es) {
      forall net: Network, k | 0 <= k <= |es| ensures Splits(framing, Run(net, c, es[..k])) {
        assert forall j | 0 <= j < k :: es[..k][j] == es[j] && es[..k][..j] == es[..j];
        RunStreams(framing, net, ts, ssrc, es[..k]);
        StreamsSplit(framing, Run(net, c, es[..k]));
      }
    } else {
      var k := Tangled(framing, ts, ssrc, es);
    }
  }

  /** The run SETUP of the first channel over TCP, SETUP of the second over UDP, PLAY, an I frame on the
      first: sendto puts bare RTP into the byte stream, and the socket may take as little of it as one
      byte; the connection stays open. */
  lemma {:induction false} MixedSetups(framing: Framing, net: Network, ts: seq<nat>, ssrc: seq<nat>, f: AVFrame, now: nat)
    requires New(ts, ssrc) && f.Valid() && now < TWO_32 && net(0) == Took(1)
    requires f.frameType == VIDEO_FRAME_I && |f.data| <= MAX_PAYLOAD
    ensures var es := [SetUpEvent(0, OverTcp, 0), SetUpEvent(1, OverUdp, 0), PlayEvent, MediaEvent(0, H264, f, now)];
            AllValid(es) &&
            var r := Run(net, Initial(ts, ssrc), es);
            && !r.isClosed && |r.sent| == 1 && !r.sent[0].tcp && !r.sent[0].dropped && r.sent[0].Astray()
            && r.socket.wire == [0x80] && r.stream == [] && !Splits(framing, r)
  {
    hide Step, Run, Initial, OfferedFrame, Unsent, Splits, Conn.Valid;
    var e1, e2, e3, e4 := SetUpEvent(0, OverTcp, 0), SetUpEvent(1, OverUdp, 0), PlayEvent, MediaEvent(0, H264, f, now);
    var c0 := Initial(ts, ssrc);
    BothSetUp(net, ts, ssrc);
    var c3 := Step(net, Step(net, Step(net, c0, e1), e2), e3);
    OneBarePacket(net, c3, e4);
    FourSteps(net, c0, e1, e2, e3, e4);
    NotAPrefix(framing, Step(net, c3, e4));
  }

  lemma {:induction false} BothSetUp(net: Network, ts: seq<nat>, ssrc: seq<nat>)
    requires New(ts, ssrc)
    ensures var c := Step(net, Step(net, Step(net, Initial(ts, ssrc), SetUpEvent(0, OverTcp, 0)), SetUpEvent(1, OverUdp, 0)),
                          PlayEvent);
            && c.transport == OverUdp && c.channels[0].rtpfd == RtspSocket && c.channels[0].isPlay && !c.isClosed
            && c.socket == Socket(0, [], []) && c.stream == [] && c.sent == []
  {
  }

  lemma {:induction false} NotAPrefix(framing: Framing, r: Conn)
    requires r.stream == [] && r.socket.wire != []
    ensures !Splits(framing, r)
  {
    assert InterleaveAll([]) == [];
  }

  lemma {:induction false} OneBarePacket(net: Network, c: Conn, e: Event)
    requires c.Valid() && e.Valid() && e.MediaEvent? && |e.frame.data| <= MAX_PAYLOAD
    requires Passes(c, e.ch, e.frame.frameType) && !c.transport.OverTcp? && c.channels[e.ch].rtpfd.RtspSocket?
    requires net(c.socket.attempts) == Took(1)
    ensures var r := Step(net, c, e);
            && !r.isClosed && |r.sent| == |c.sent| + 1 && r.stream == c.stream && r.socket.wire == c.socket.wire + [0x80]
            && !r.sent[|c.sent|].tcp && !r.sent[|c.sent|].dropped && r.sent[|c.sent|].Astray()
  {
    hide BigEndian, Unsent;
    var ps, ts := Payloads(e.codec, e.frame.data), e.frame.Timestamp(e.now);
    assert OfferedPackets(net, c, e.ch, e.frame.frameType, ts, ps, 0) == c;
  }

  // -- A client that keeps up --------------------------------------------------------------

  /** From now on no send fails or is blocked, and the write queue has room. */
  ghost predicate KeepsUpFrom(net: Network, c: Conn) {
    && c.Valid() && |c.socket.queue| < QUEUE
    && forall k | k >= c.socket.attempts :: net(k).Took? && net(k).n > 0
  }

  ghost predicate StillKeepsUp(net: Network, c: Conn, r: Conn) {
    && KeepsUpFrom(net, r) && c.sent <= r.sent && (c.socket.queue == [] ==> r.socket.queue == [])
    && forall k | |c.sent| <= k < |r.sent| :: !r.sent[k].dropped
  }

  lemma {:induction false} PacketKeepsUp(net: Network, c: Conn, ch: nat, frameType: nat, last: nat, ts: nat,
      payload: seq<byte>)
    requires KeepsUpFrom(net, c) && ch < CHANNELS && last < 2 && ts < TWO_32
    ensures var r := Offered(net, c, ch, frameType, last, ts, payload); StillKeepsUp(net, c, r) && r.isClosed == c.isClosed
  {
    hide Offered, Flushed, RtpHeader.Encode, Interleave;
    var s := PacketOf(c, ch, last, ts, payload);
    OfferedIs(net, c, ch, frameType, last, ts, payload);
    SocketGrows(net, c, ch, frameType, last, ts, payload);
    if Passes(c, ch, frameType) {
      if c.transport.OverTcp? {
        OfferedSocket(net, c, ch, frameType, last, ts, payload);
        KeepsUp(net, c.socket.(queue := c.socket.queue + [s.Bytes()]));
      } else {
        DatagramKeepsUp(net, c, ch, frameType, last, ts, payload);
      }
    }
  }

  lemma {:induction false} DatagramKeepsUp(net: Network, c: Conn, ch: nat, frameType: nat, last: nat, ts: nat,
      payload: seq<byte>)
    requires KeepsUpFrom(net, c) && ch < CHANNELS && last < 2 && ts < TWO_32 && !c.transport.OverTcp? && !c.isClosed
    ensures var r := Offered(net, c, ch, frameType, last, ts, payload);
            !r.isClosed && r.socket.queue == c.socket.queue
  {
    hide RtpHeader.Encode, Streamed;
  }

  lemma {:induction false} PacketsKeepUp(net: Network, c: Conn, ch: nat, frameType: nat, ts: nat,
      ps: seq<seq<byte>>, n: nat)
    requires KeepsUpFrom(net, c) && ch < CHANNELS && ts < TWO_32 && n <= |ps|
    ensures var r := OfferedPackets(net, c, ch, frameType, ts, ps, n); StillKeepsUp(net, c, r) && r.isClosed == c.isClosed
  {
    hide Offered, Unsent;
    if n > 0 {
      PacketsKeepUp(net, c, ch, frameType, ts, ps, n - 1);
      PacketKeepsUp(net, OfferedPackets(net, c, ch, frameType, ts, ps, n - 1), ch, frameType,
                    if n == |ps| then 1 else 0, ts, ps[n - 1]);
    }
  }

  lemma {:induction false} StepKeepsUp(net: Network, c: Conn, e: Event)
    requires KeepsUpFrom(net, c) && e.Valid()
    ensures var r := Step(net, c, e); StillKeepsUp(net, c, r) && (r.isClosed <==> c.isClosed || e.TeardownEvent?)
  {
    hide OfferedPackets, Payloads, Appended, Flushed, FlushedTo, Unsent;
    if e.MediaEvent? {
      var ps := Payloads(e.codec, e.frame.data);
      PacketsKeepUp(net, c, e.ch, e.frame.frameType, e.frame.Timestamp(e.now), ps, |ps|);
    } else if e.WritableEvent? {
      KeepsUp(net, c.socket);
    } else if e.ReplyEvent? {
      KeepsUp(net, Appended(c, e.text).socket);
    }
  }

  lemma {:induction false} RunKeepsUp(net: Network, c: Conn, es: seq<Event>)
    requires KeepsUpFrom(net, c) && AllValid(es)
    ensures var r := Run(net, c, es);
            && StillKeepsUp(net, c, r)
            && (r.isClosed <==> c.isClosed || exists k | 0 <= k < |es| :: es[k].TeardownEvent?)
  {
    hide Step, Unsent;
    if es != [] {
      var init, e := es[..|es| - 1], es[|es| - 1];
      assert forall k | 0 <= k < |init| :: init[k] == es[k];
      assert es[|es| - 1] == e;
      RunKeepsUp(net, c, init);
      StepKeepsUp(net, Run(net, c, init), e);
    }
  }

  lemma {:induction false} RunDrains(c: Conn, es: seq<Event>)
    requires c.Valid() && AllValid(es) && c.socket.queue == []
    ensures Asked(c, es).socket.queue == []
  {
    hide Run;
    RunKeepsUp(Perfect(), c, es);
  }

  // -- Numbering --------------------------------------------------------------------------

  /** The packets handed over on one channel. */
  function On(sent: seq<Sent>, ch: nat): (rs: seq<seq<byte>>) {
    if sent == [] then []
    else
      var s := sent[|sent| - 1];
      On(sent[..|sent| - 1], ch) + if s.ch == ch then [s.rtp] else []
  }

  /** Which of them were neither dropped nor sent to a socket of another transport, by their positions. */
  function Kept(sent: seq<Sent>, ch: nat): (ks: seq<nat>)
    ensures |ks| <= |On(sent, ch)| && forall j | 0 <= j < |ks| :: j <= ks[j] < |On(sent, ch)|
  {
    if sent == [] then []
    else
      var init, s := sent[..|sent| - 1], sent[|sent| - 1];
      Kept(init, ch) + if s.ch == ch && !s.Lost() then [|On(init, ch)|] else []
  }

  function Octets(rs: seq<seq<byte>>): nat {
    if rs == [] then 0 else Octets(rs[..|rs| - 1]) + TCP_HEAD + |rs[|rs| - 1]|
  }

  /** Sequence numbers run from 1 modulo 2^16 without a gap, and while the connection is open
      the counters say how many packets and octets have been handed over. */
  ghost predicate Numbering(c: Conn, ch: nat)
    requires c.Valid() && ch < CHANNELS
  {
    var rs, m := On(c.sent, ch), c.channels[ch];
    && (forall k | 0 <= k < |rs| :: |rs[k]| >= RTP_HEADER && Decode(rs[k]).seqno == (1 + k) % 0x1_0000)
    && (!c.isClosed ==>
          && m.packetSeq == (1 + |rs|) % 0x1_0000 == (1 + m.packetCount) % 0x1_0000
          && m.packetCount == |rs| % TWO_64
          && m.octetCount == Octets(rs) % TWO_64)
  }

  lemma {:induction false} OnSnoc(sent: seq<Sent>, s: Sent, ch: nat)
    ensures On(sent + [s], ch) == On(sent, ch) + if s.ch == ch then [s.rtp] else []
    ensures Kept(sent + [s], ch) == Kept(sent, ch) + if s.ch == ch && !s.Lost() then [|On(sent, ch)|] else []
  {
    assert (sent + [s])[..|sent + [s]| - 1] == sent;
  }

  lemma {:induction false} OctetsSnoc(rs: seq<seq<byte>>, r: seq<byte>)
    ensures Octets(rs + [r]) == Octets(rs) + TCP_HEAD + |r|
  {
    assert (rs + [r])[..|rs + [r]| - 1] == rs;
  }

  /** One packet more. */
  lemma {:induction false} SentIsNumbered(c: Conn, r: Conn, s: Sent, mine: nat)
    requires c.Valid() && r.Valid() && s.ch < CHANNELS && mine < CHANNELS && Numbering(c, mine)
    requires !c.isClosed && r.sent == c.sent + [s]
    requires |s.rtp| >= RTP_HEADER && Decode(s.rtp).seqno == c.channels[s.ch].packetSeq
    requires !r.isClosed ==> Advanced(c.channels[s.ch], r.channels[s.ch], |s.rtp|)
    requires !r.isClosed && mine != s.ch ==> r.channels[mine] == c.channels[mine]
    ensures Numbering(r, mine)
  {
    hide Decode, Octets, On, Unsent;
    OnSnoc(c.sent, s, mine);
    var before := On(c.sent, mine);
    if s.ch == mine {
      OctetsSnoc(before, s.rtp);
      if !r.isClosed {
        CountersAdvance(c.channels[mine], r.channels[mine], |before|, Octets(before), |s.rtp|);
      }
    } else {
      assert before + [] == before;
    }
  }

  lemma {:induction false} CountersAdvance(m: Channel, n: Channel, count: nat, octets: nat, size: nat)
    requires m.packetSeq == (1 + count) % 0x1_0000 && m.packetCount == count % TWO_64 && m.octetCount == octets % TWO_64
    requires Advanced(m, n, size)
    ensures n.packetSeq == (2 + count) % 0x1_0000 == (1 + n.packetCount) % 0x1_0000
    ensures n.packetCount == (1 + count) % TWO_64 && n.octetCount == (octets + TCP_HEAD + size) % TWO_64
  {
    AddModulo(octets, TCP_HEAD + size);
    AddModulo(count, 1);
    LowBits(count + 1);
  }

  lemma {:induction false} LowBits(a: nat)
    ensures (1 + a % TWO_64) % 0x1_0000 == (1 + a) % 0x1_0000
  {
    var q := a / TWO_64;
    assert a == q * TWO_64 + a % TWO_64;
    assert 1 + a == (q * 0x1_0000_0000_0000) * 0x1_0000 + (1 + a % TWO_64);
  }

  lemma {:induction false} AddModulo(a: nat, b: nat)
    ensures (a % TWO_64 + b) % TWO_64 == (a + b) % TWO_64
    ensures ((1 + a) % 0x1_0000 + 1) % 0x1_0000 == (2 + a) % 0x1_0000
  {
  }

  lemma {:induction false} OfferedIsNumbered(net: Network, c: Conn, ch: nat, frameType: nat, last: nat, ts: nat,
      payload: seq<byte>, mine: nat)
    requires c.Valid() && ch < CHANNELS && last < 2 && ts < TWO_32 && mine < CHANNELS && Numbering(c, mine)
    ensures Numbering(Offered(net, c, ch, frameType, last, ts, payload), mine)
  {
    hide Offered, RtpHeader.Encode, Decode, On, Octets, Unsent;
    var r, s := Offered(net, c, ch, frameType, last, ts, payload), PacketOf(c, ch, last, ts, payload);
    OfferedIs(net, c, ch, frameType, last, ts, payload);
    HeaderRoundTrip(HeaderOf(c, ch, last, ts), payload);
    if r.sent == c.sent + [s] && !c.isClosed {
      SentIsNumbered(c, r, s, mine);
    }
  }

  lemma {:induction false} PacketsAreNumbered(net: Network, c: Conn, ch: nat, frameType: nat, ts: nat,
      ps: seq<seq<byte>>, n: nat, mine: nat)
    requires c.Valid() && ch < CHANNELS && ts < TWO_32 && n <= |ps| && mine < CHANNELS && Numbering(c, mine)
    ensures Numbering(OfferedPackets(net, c, ch, frameType, ts, ps, n), mine)
  {
    hide Offered, Numbering, Unsent;
    if n > 0 {
      PacketsAreNumbered(net, c, ch, frameType, ts, ps, n - 1, mine);
      OfferedIsNumbered(net, OfferedPackets(net, c, ch, frameType, ts, ps, n - 1), ch, frameType,
                        if n == |ps| then 1 else 0, ts, ps[n - 1], mine);
    }
  }

  lemma {:induction false} StepIsNumbered(net: Network, c: Conn, e: Event, mine: nat)
    requires c.Valid() && e.Valid() && mine < CHANNELS && Numbering(c, mine)
    ensures Numbering(Step(net, c, e), mine)
  {
    hide OfferedPackets, On, Octets, Decode, Payloads, Written, Replied, TornDown, Unsent;
    if e.MediaEvent? {
      var ps := Payloads(e.codec, e.frame.data);
      PacketsAreNumbered(net, c, e.ch, e.frame.frameType, e.frame.Timestamp(e.now), ps, |ps|, mine);
    } else if e.WritableEvent? || e.ReplyEvent? || e.TeardownEvent? {
      SocketStep(net, c, e);
    }
  }

  lemma {:induction false} NewIsNumbered(ts: seq<nat>, ssrc: seq<nat>, ch: nat)
    requires New(ts, ssrc) && ch < CHANNELS
    ensures Numbering(Initial(ts, ssrc), ch)
  {
  }

  /** In every run from a new connection, on each channel, of the packets handed over: sent,
      queued or dropped. */
  lemma {:induction false} NumberingHolds(net: Network, ts: seq<nat>, ssrc: seq<nat>, es: seq<Event>, ch: nat)
    requires New(ts, ssrc) && ch < CHANNELS && AllValid(es)
    ensures Numbering(Run(net, Initial(ts, ssrc), es), ch)
  {
    hide Step, Numbering;
    if es == [] {
      NewIsNumbered(ts, ssrc, ch);
    } else {
      NumberingHolds(net, ts, ssrc, es[..|es| - 1], ch);
      StepIsNumbered(net, Run(net, Initial(ts, ssrc), es[..|es| - 1]), es[|es| - 1], ch);
    }
  }

  /** The sequence numbers of the packets that were kept have no gap. */
  ghost predicate NoGap(sent: seq<Sent>, ch: nat) {
    forall j | 0 <= j < |Kept(sent, ch)| ::
      var rtp := On(sent, ch)[Kept(sent, ch)[j]];
      |rtp| >= RTP_HEADER && Decode(rtp).seqno == (1 + j) % 0x1_0000
  }

  lemma {:induction false} AllKept(sent: seq<Sent>, ch: nat)
    requires forall k | 0 <= k < |sent| && sent[k].ch == ch :: !sent[k].Lost()
    ensures |Kept(sent, ch)| == |On(sent, ch)| && forall j | 0 <= j < |Kept(sent, ch)| :: Kept(sent, ch)[j] == j
  {
    if sent != [] {
      AllKept(sent[..|sent| - 1], ch);
    }
  }

  /** What gets through, in every run: the j-th packet kept is numbered from 1 on without a gap for
      every j if and only if the number of packets lost before it is a multiple of 2^16; so it is
      when none was lost. */
  lemma {:induction false} KeptNumbering(net: Network, ts: seq<nat>, ssrc: seq<nat>, es: seq<Event>, ch: nat)
    requires New(ts, ssrc) && ch < CHANNELS && AllValid(es)
    ensures var sent := Run(net, Initial(ts, ssrc), es).sent;
            && (NoGap(sent, ch) <==> forall j | 0 <= j < |Kept(sent, ch)| :: (Kept(sent, ch)[j] - j) % 0x1_0000 == 0)
            && ((forall k | 0 <= k < |sent| && sent[k].ch == ch :: !sent[k].Lost()) ==> NoGap(sent, ch))
  {
    hide Run, Initial, Kept, On, Decode, Octets;
    NumberingHolds(net, ts, ssrc, es, ch);
    var sent := Run(net, Initial(ts, ssrc), es).sent;
    var ks := Kept(sent, ch);
    forall j | 0 <= j < |ks| ensures (1 + ks[j]) % 0x1_0000 == (1 + j) % 0x1_0000 <==> (ks[j] - j) % 0x1_0000 == 0 {
      SameRemainder(ks[j], j);
    }
    if forall k | 0 <= k < |sent| && sent[k].ch == ch :: !sent[k].Lost() {
      AllKept(sent, ch);
    }
  }

  lemma {:induction false} SameRemainder(a: nat, b: nat)
    requires b <= a
    ensures (1 + a) % 0x1_0000 == (1 + b) % 0x1_0000 <==> (a - b) % 0x1_0000 == 0
  {
  }

  // -- Whole frames -----------------------------------------------------------------------

  /** The write queue is full when the k-th packet of a frame is to be appended to it. */
  predicate FullAt(net: Network, c: Conn, ch: nat, frameType: nat, ts: nat, ps: seq<seq<byte>>, k: nat)
    requires c.Valid() && ch < CHANNELS && ts < TWO_32 && k <= |ps|
  {
    c.transport.OverTcp? && OfferedPackets(net, c, ch, frameType, ts, ps, k).QueueFull()
  }

  predicate Carries(s: Sent, ch: nat, payload: seq<byte>) {
    s.ch == ch && |s.rtp| >= RTP_HEADER && s.rtp[RTP_HEADER..] == payload
  }

  /** From `c` to `r` the first `n` packets of a frame have been handed over in order, unless a send
      failed and closed the connection; dropped are exactly those that met a full queue. */
  ghost predicate Went(net: Network, c: Conn, r: Conn, ch: nat, frameType: nat, ts: nat, ps: seq<seq<byte>>, n: nat)
    requires c.Valid() && ch < CHANNELS && ts < TWO_32 && n <= |ps|
  {
    && c.sent <= r.sent && |r.sent| <= |c.sent| + n
    && (forall k | |c.sent| <= k < |r.sent| ::
          && Carries(r.sent[k], ch, ps[k - |c.sent|])
          && r.sent[k].tcp == c.transport.OverTcp? && r.sent[k].rtpfd == c.channels[ch].rtpfd
          && r.sent[k].dropped == FullAt(net, c, ch, frameType, ts, ps, k - |c.sent|))
    && if r.isClosed
       then r.socket.attempts > c.socket.attempts && Refused(net(r.socket.attempts - 1), c.transport.OverTcp?)
       else |r.sent| == |c.sent| + n
  }

  lemma {:induction false} OneMoreWent(net: Network, c: Conn, d: Conn, ch: nat, frameType: nat, ts: nat,
      ps: seq<seq<byte>>, n: nat)
    requires c.Valid() && ch < CHANNELS && ts < TWO_32 && n < |ps|
    requires d == OfferedPackets(net, c, ch, frameType, ts, ps, n) && d.transport == c.transport
    requires d.channels[ch].rtpfd == c.channels[ch].rtpfd
    requires Went(net, c, d, ch, frameType, ts, ps, n) && d.socket.attempts >= c.socket.attempts
    requires d.isClosed || Passes(d, ch, frameType)
    ensures var r := Offered(net, d, ch, frameType, if n + 1 == |ps| then 1 else 0, ts, ps[n]);
            && Went(net, c, r, ch, frameType, ts, ps, n + 1) && r.socket.attempts >= c.socket.attempts
            && r.transport == c.transport && r.channels[ch].rtpfd == c.channels[ch].rtpfd
            && (r.isClosed || Passes(r, ch, frameType))
  {
    hide Offered, OfferedPackets, RtpHeader.Encode, Unsent, Carries, Advanced, Passes;
    var last := if n + 1 == |ps| then 1 else 0;
    OfferedIs(net, d, ch, frameType, last, ts, ps[n]);
    PacketCarries(d, ch, last, ts, ps[n]);
    PassesOpen(d, ch, frameType);
    SocketGrows(net, d, ch, frameType, last, ts, ps[n]);
  }

  lemma {:induction false} PacketCarries(c: Conn, ch: nat, last: nat, ts: nat, payload: seq<byte>)
    requires c.Valid() && ch < CHANNELS && last < 2 && ts < TWO_32
    ensures Carries(PacketOf(c, ch, last, ts, payload), ch, payload)
  {
    hide RtpHeader.Encode, Decode;
    HeaderRoundTrip(HeaderOf(c, ch, last, ts), payload);
  }

  lemma {:induction false} PassesOpen(c: Conn, ch: nat, frameType: nat)
    requires c.Valid() && ch < CHANNELS
    ensures Passes(c, ch, frameType) ==> !c.isClosed
  {
  }

  lemma {:induction false} AttemptGrows(net: Network, c: Conn, ch: nat, rtp: seq<byte>)
    requires c.Valid() && ch < CHANNELS
    ensures var t := Attempted(net, c, ch, rtp).socket;
            t.attempts >= c.socket.attempts && |t.queue| <= |c.socket.queue| + 1
  {
    hide FlushedTo, Unsent, Enqueued, TornDown, Bare;
  }

  lemma {:induction false} SocketGrows(net: Network, c: Conn, ch: nat, frameType: nat, last: nat, ts: nat,
      payload: seq<byte>)
    requires c.Valid() && ch < CHANNELS && last < 2 && ts < TWO_32
    ensures var t := Offered(net, c, ch, frameType, last, ts, payload).socket;
            t.attempts >= c.socket.attempts && |t.queue| <= |c.socket.queue| + 1
  {
    hide Attempted, RtpHeader.Encode, Unsent, Interleave;
    var n := Numbered(Gated(c, frameType), ch, last, ts);
    AttemptGrows(net, n, ch, n.channels[ch].header.Encode() + payload);
  }

  lemma {:induction false} PacketsTogether(net: Network, c: Conn, ch: nat, frameType: nat, ts: nat,
      ps: seq<seq<byte>>, n: nat)
    requires c.Valid() && ch < CHANNELS && ts < TWO_32 && n <= |ps|
    ensures var r := OfferedPackets(net, c, ch, frameType, ts, ps, n);
            && r.transport == c.transport && r.channels[ch].rtpfd == c.channels[ch].rtpfd
            && r.socket.attempts >= c.socket.attempts
            && if Passes(c, ch, frameType)
               then Went(net, c, r, ch, frameType, ts, ps, n) && (r.isClosed || Passes(r, ch, frameType))
               else r.sent == c.sent && !Passes(r, ch, frameType) && r.isClosed == c.isClosed
  {
    hide Offered, Unsent, Went;
    if n == 0 {
      NoneWent(net, c, ch, frameType, ts, ps);
    } else {
      PacketsTogether(net, c, ch, frameType, ts, ps, n - 1);
      var d := OfferedPackets(net, c, ch, frameType, ts, ps, n - 1);
      if Passes(c, ch, frameType) {
        OneMoreWent(net, c, d, ch, frameType, ts, ps, n - 1);
      } else {
        OfferedIs(net, d, ch, frameType, if n == |ps| then 1 else 0, ts, ps[n - 1]);
      }
    }
  }

  lemma {:induction false} NoneWent(net: Network, c: Conn, ch: nat, frameType: nat, ts: nat, ps: seq<seq<byte>>)
    requires c.Valid() && ch < CHANNELS && ts < TWO_32
    ensures Passes(c, ch, frameType) ==> Went(net, c, c, ch, frameType, ts, ps, 0)
  {
  }

  /** A frame is handed over packet by packet, unless a send fails midway and ends the connection,
      and of an interleaved client exactly the packets are dropped that meet a full queue. */
  lemma {:induction false} WholeFrames(net: Network, c: Conn, e: Event)
    requires c.Valid() && e.Valid() && e.MediaEvent?
    ensures var r, ps := Step(net, c, e), Payloads(e.codec, e.frame.data);
            if Passes(c, e.ch, e.frame.frameType)
            then Went(net, c, r, e.ch, e.frame.frameType, e.frame.Timestamp(e.now), ps, |ps|)
            else r.sent == c.sent
  {
    hide Payloads, OfferedPackets, Went;
    var ps := Payloads(e.codec, e.frame.data);
    PacketsTogether(net, c, e.ch, e.frame.frameType, e.frame.Timestamp(e.now), ps, |ps|);
  }

  // -- When a frame can be torn by a full queue ----------------------------------------------

  /** A client that is still there has been given the whole frame or nothing of it, and nothing has
      gone to a socket of another transport. */
  ghost predicate AllOrNothing(c: Conn, r: Conn) {
    r.isClosed ||
    (&& (forall k | |c.sent| <= k < |r.sent| :: !r.sent[k].Astray())
     && (|| (forall k | |c.sent| <= k < |r.sent| :: !r.sent[k].dropped)
         || (forall k | |c.sent| <= k < |r.sent| :: r.sent[k].dropped)))
  }

  ghost predicate NeverTorn(c: Conn, e: Event)
    requires c.Valid() && e.Valid()
  {
    forall net: Network :: AllOrNothing(c, Step(net, c, e))
  }

  lemma {:induction false} OfferedSocket(net: Network, c: Conn, ch: nat, frameType: nat, last: nat, ts: nat,
      payload: seq<byte>)
    requires c.Valid() && ch < CHANNELS && last < 2 && ts < TWO_32
    requires Passes(c, ch, frameType) && c.transport.OverTcp?
    ensures var r, s := Offered(net, c, ch, frameType, last, ts, payload), PacketOf(c, ch, last, ts, payload);
            var queue := if c.QueueFull() then c.socket.queue else c.socket.queue + [s.Bytes()];
            && Unsent(queue)
            && Flushing(r.socket, r.isClosed) == FlushedTo(net, c.socket.(queue := queue), c.channels[ch].rtpfd.RtspSocket?)
  {
    hide Flushed, FlushedTo, RtpHeader.Encode, Interleave;
    var n := Numbered(Gated(c, frameType), ch, last, ts);
    assert n.channels[ch].header == HeaderOf(c, ch, last, ts);
  }

  lemma {:induction false} QueueGrows(net: Network, c: Conn, ch: nat, frameType: nat, ts: nat,
      ps: seq<seq<byte>>, n: nat)
    requires c.Valid() && ch < CHANNELS && ts < TWO_32 && n <= |ps|
    ensures |OfferedPackets(net, c, ch, frameType, ts, ps, n).socket.queue| <= |c.socket.queue| + n
  {
    hide Offered, Unsent;
    if n > 0 {
      QueueGrows(net, c, ch, frameType, ts, ps, n - 1);
      SocketGrows(net, OfferedPackets(net, c, ch, frameType, ts, ps, n - 1), ch, frameType,
                  if n == |ps| then 1 else 0, ts, ps[n - 1]);
    }
  }

  /** A network that lets one packet of a full queue go, and nothing else. */
  function Jam(c: Conn): Network {
    (k: nat) =>
      if k == c.socket.attempts && c.QueueFull() && c.socket.queue != [] then Took(|c.socket.queue[0]|) else Took(0)
  }

  /** How long the queue is after `k` packets on it. */
  function Level(queue: nat, k: nat): nat {
    if queue < QUEUE then Least(QUEUE, queue + k) else if k == 0 then QUEUE else Least(QUEUE, QUEUE + k - 2)
  }

  lemma {:induction false} JamTakes(c: Conn, s: Socket)
    requires c.Valid() && s.Valid() && s.queue != [] && s.attempts >= c.socket.attempts
    requires s.attempts == c.socket.attempts && c.QueueFull() ==> s == c.socket
    ensures var f, one := Flushed(Jam(c), s), s.attempts == c.socket.attempts && c.QueueFull();
            !f.failed && f.socket.attempts > c.socket.attempts && |f.socket.queue| == |s.queue| - if one then 1 else 0
  {
    hide Flushed;
    FlushStep(Jam(c), s);
    FlushStep(Jam(c), SentOnce(Jam(c), s).socket);
  }

  lemma {:induction false} Jammed(c: Conn, ch: nat, frameType: nat, ts: nat, ps: seq<seq<byte>>, k: nat)
    requires c.Valid() && ch < CHANNELS && ts < TWO_32 && k <= |ps| && |c.socket.queue| <= QUEUE
    requires Passes(c, ch, frameType) && c.transport.OverTcp? && c.Matched(ch)
    ensures var r := OfferedPackets(Jam(c), c, ch, frameType, ts, ps, k);
            && Passes(r, ch, frameType) && !r.isClosed && r.transport.OverTcp? && r.Matched(ch)
            && |r.socket.queue| == Level(|c.socket.queue|, k)
            && (if k == 0 then r == c else r.socket.attempts > c.socket.attempts)
  {
    hide Offered, Interleave, RtpHeader.Encode, Flushed, Jam;
    if k > 0 {
      Jammed(c, ch, frameType, ts, ps, k - 1);
      var d, last := OfferedPackets(Jam(c), c, ch, frameType, ts, ps, k - 1), if k == |ps| then 1 else 0;
      OfferedIs(Jam(c), d, ch, frameType, last, ts, ps[k - 1]);
      OfferedSocket(Jam(c), d, ch, frameType, last, ts, ps[k - 1]);
      var s := PacketOf(d, ch, last, ts, ps[k - 1]);
      JamTakes(c, d.socket.(queue := if d.QueueFull() then d.socket.queue else d.socket.queue + [s.Bytes()]));
    }
  }

  lemma {:induction false} NeverTornIf(net: Network, c: Conn, e: Event)
    requires c.Valid() && e.Valid() && e.MediaEvent? && Passes(c, e.ch, e.frame.frameType) && c.Matched(e.ch)
    requires var n := |Payloads(e.codec, e.frame.data)|;
             !c.transport.OverTcp? || |c.socket.queue| + n <= QUEUE || n == 1
    ensures AllOrNothing(c, Step(net, c, e))
  {
    hide Payloads, OfferedPackets, Unsent, Passes, Step;
    var ps, ts := Payloads(e.codec, e.frame.data), e.frame.Timestamp(e.now);
    WholeFrames(net, c, e);
    forall k | 0 <= k < |ps| ensures FullAt(net, c, e.ch, e.frame.frameType, ts, ps, k) ==> |ps| == 1 {
      QueueGrows(net, c, e.ch, e.frame.frameType, ts, ps, k);
    }
  }

  lemma {:induction false} TornByJam(c: Conn, e: Event)
    requires c.Valid() && e.Valid() && e.MediaEvent? && Passes(c, e.ch, e.frame.frameType)
    requires c.transport.OverTcp? && c.Matched(e.ch) && |c.socket.queue| <= QUEUE
    requires var n := |Payloads(e.codec, e.frame.data)|; |c.socket.queue| + n > QUEUE && n > 1
    ensures !AllOrNothing(c, Step(Jam(c), c, e))
  {
    hide Payloads, OfferedPackets, Unsent, Jam, Passes;
    var ps, ts, q := Payloads(e.codec, e.frame.data), e.frame.Timestamp(e.now), |c.socket.queue|;
    var n, r := |ps|, Step(Jam(c), c, e);
    WholeFrames(Jam(c), c, e);
    Jammed(c, e.ch, e.frame.frameType, ts, ps, 0);
    Jammed(c, e.ch, e.frame.frameType, ts, ps, 1);
    Jammed(c, e.ch, e.frame.frameType, ts, ps, n - 1);
    Jammed(c, e.ch, e.frame.frameType, ts, ps, n);
    assert |r.sent| == |c.sent| + n;
    var a, b := |c.sent|, if q < QUEUE then |c.sent| + n - 1 else |c.sent| + 1;
    assert r.sent[a].dropped != r.sent[b].dropped;
  }

  lemma {:induction false} TornByMismatch(c: Conn, e: Event)
    requires c.Valid() && e.Valid() && e.MediaEvent? && Passes(c, e.ch, e.frame.frameType) && !c.Matched(e.ch)
    ensures !AllOrNothing(c, Step(Perfect(), c, e))
  {
    hide Payloads, OfferedPackets, Unsent, Perfect;
    var ps, ts := Payloads(e.codec, e.frame.data), e.frame.Timestamp(e.now);
    WholeFrames(Perfect(), c, e);
    PacketsControl(Perfect(), c, e.ch, e.frame.frameType, ts, ps, |ps|);
    assert Step(Perfect(), c, e).sent[|c.sent|].Astray();
  }

  /** Whatever the network does, an open client's frame is given to it whole or not at all, and to no
      other socket, if and only if the descriptor of the channel is one of the transport, and the
      client is not interleaved, or its queue has room for all packets, or there is but one. */
  lemma {:induction false} WholeUnderAnyNetwork(c: Conn, e: Event)
    requires c.Valid() && e.Valid() && e.MediaEvent? && Passes(c, e.ch, e.frame.frameType)
    requires |c.socket.queue| <= QUEUE
    ensures var n := |Payloads(e.codec, e.frame.data)|;
            NeverTorn(c, e) <==> c.Matched(e.ch) && (!c.transport.OverTcp? || |c.socket.queue| + n <= QUEUE || n == 1)
  {
    hide Payloads, Step, Passes, AllOrNothing, Jam, Perfect, Unsent;
    var n := |Payloads(e.codec, e.frame.data)|;
    if !c.Matched(e.ch) {
      TornByMismatch(c, e);
    } else if !c.transport.OverTcp? || |c.socket.queue| + n <= QUEUE || n == 1 {
      forall net: Network ensures AllOrNothing(c, Step(net, c, e)) {
        NeverTornIf(net, c, e);
      }
    } else {
      TornByJam(c, e);
    }
  }

  // -- When what is queued is sent on -------------------------------------------------------

  /** A packet of an interleaved client leaves bytes in the queue that the event loop will send if and
      only if the socket was watched for writing before it; otherwise they wait for the next packet
      or message. */
  lemma {:induction false} PacketIsWatched(net: Network, c: Conn, ch: nat, frameType: nat, last: nat, ts: nat,
      payload: seq<byte>)
    requires c.Valid() && ch < CHANNELS && last < 2 && ts < TWO_32
    requires Passes(c, ch, frameType) && c.transport.OverTcp?
    ensures var r := Offered(net, c, ch, frameType, last, ts, payload);
            !r.isClosed ==> (r.isWriting <==> c.isWriting || r.socket.queue == [])
  {
    hide FlushedTo, Enqueued, RtpHeader.Encode, Unsent;
  }

  /** Bytes that a message leaves in the queue are always sent by the event loop, and it sends until
      nothing is left. */
  lemma {:induction false} MessageIsWatched(net: Network, c: Conn, text: seq<byte>)
    requires c.Valid() && !c.isGone
    ensures var r := Replied(net, c, text); !r.isGone ==> (r.isWriting <==> c.isWriting || r.socket.queue != [])
    ensures var r := Written(net, c); !r.isGone && c.isWriting ==> (r.isWriting <==> r.socket.queue != [])
  {
    hide Flushed, Appended, Unsent;
  }

  /** The run SETUP, PLAY, an I frame whose send is blocked, a writable socket: nothing is sent. */
  lemma {:induction false} BlockedPacketWaits(net: Network, ts: seq<nat>, ssrc: seq<nat>, f: AVFrame, now: nat)
    requires New(ts, ssrc) && f.Valid() && now < TWO_32 && net(0) == Took(0)
    requires f.frameType == VIDEO_FRAME_I && |f.data| <= MAX_PAYLOAD
    ensures var es := [SetUpEvent(0, OverTcp, 0), PlayEvent, MediaEvent(0, H264, f, now), WritableEvent];
            && AllValid(es)
            && var r := Run(net, Initial(ts, ssrc), es);
            !r.isClosed && |r.socket.queue| == 1 && !r.isWriting && r.socket.wire == []
  {
    hide Step, Run, Initial, OfferedFrame, Unsent;
    var e1, e2, e3, e4 := SetUpEvent(0, OverTcp, 0), PlayEvent, MediaEvent(0, H264, f, now), WritableEvent;
    var c0 := Initial(ts, ssrc);
    Interleaving(net, ts, ssrc);
    BlockedPacket(net, Step(net, Step(net, c0, e1), e2), e3);
    FourSteps(net, c0, e1, e2, e3, e4);
    NotWatched(net, Step(net, Step(net, Step(net, c0, e1), e2), e3));
  }

  lemma {:induction false} NotWatched(net: Network, c: Conn)
    requires c.Valid() && !c.isWriting
    ensures Step(net, c, WritableEvent) == c
  {
  }

  lemma {:induction false} Interleaving(net: Network, ts: seq<nat>, ssrc: seq<nat>)
    requires New(ts, ssrc)
    ensures var c := Step(net, Step(net, Initial(ts, ssrc), SetUpEvent(0, OverTcp, 0)), PlayEvent);
            && c.transport == OverTcp && c.channels[0].isPlay && c.Matched(0) && !c.isClosed && !c.isWriting
            && c.socket == Socket(0, [], []) && c.stream == []
  {
  }

  lemma {:induction false} BlockedPacket(net: Network, c: Conn, e: Event)
    requires c.Valid() && e.Valid() && e.MediaEvent? && |e.frame.data| <= MAX_PAYLOAD
    requires Passes(c, e.ch, e.frame.frameType) && c.transport.OverTcp? && c.Matched(e.ch)
    requires c.socket.queue == [] && !c.isWriting && net(c.socket.attempts) == Took(0)
    ensures var r := Step(net, c, e);
            !r.isClosed && |r.socket.queue| == 1 && !r.isWriting && r.socket.wire == c.socket.wire
  {
    hide RtpHeader.Encode, Interleave, Unsent;
    var ps, ts := Payloads(e.codec, e.frame.data), e.frame.Timestamp(e.now);
    assert OfferedPackets(net, c, e.ch, e.frame.frameType, ts, ps, 0) == c;
  }

  // -- Over multicast -----------------------------------------------------------------------

  /** Over multicast a packet goes out, as long as sends succeed, if and only if the first client in
      the order of the map that has a connection is past its gate; whether the others are does not
      matter. */
  lemma {:induction false} MulticastSendsIff(clients: map<int, RtpConnection?>, before: map<int, Conn>,
      after: map<int, Conn>, ch: nat, frameType: nat, last: nat, ts: nat, payload: seq<byte>)
    requires ch < CHANNELS && last < 2 && ts < TWO_32
    requires OfferedOnce(clients, true, before, after, ch, frameType, last, ts, payload)
    requires forall k | k in before ::
      before[k].transport.OverTcp? || !Refused(clients[k].network(before[k].socket.attempts), false)
    ensures (exists k | k in before :: after[k].sent != before[k].sent)
            <==> (exists k | k in before :: FirstClient(clients, k) && Passes(before[k], ch, frameType))
  {
    hide Offered, RtpHeader.Encode, Unsent, Passes;
    forall k | k in before && Reached(clients, true, k)
      ensures after[k].sent != before[k].sent <==> Passes(before[k], ch, frameType)
    {
      OneGoesOut(clients[k].network, before[k], ch, frameType, last, ts, payload);
    }
  }

  /** The first client in the order of the map that has a connection. */
  ghost predicate FirstClient(clients: map<int, RtpConnection?>, k: int) {
    && k in clients && clients[k] != null
    && forall j | j in clients && clients[j] != null :: k <= j
  }

  lemma {:induction false} OneGoesOut(net: Network, c: Conn, ch: nat, frameType: nat, last: nat, ts: nat,
      payload: seq<byte>)
    requires c.Valid() && ch < CHANNELS && last < 2 && ts < TWO_32
    requires c.transport.OverTcp? || !Refused(net(c.socket.attempts), false)
    ensures Offered(net, c, ch, frameType, last, ts, payload).sent != c.sent <==> Passes(c, ch, frameType)
  {
    hide FlushedTo, RtpHeader.Encode, Unsent;
  }

  // -- What is never sent -----------------------------------------------------------------

  /** Nothing is sent while the gate is closed, nor on a channel that was never set up. */
  ghost predicate Guarded(c: Conn, ch: nat)
    requires c.Valid() && ch < CHANNELS
  {
    && (c.channels[ch].Started() ==> c.channels[ch].isSetup)
    && (On(c.sent, ch) != [] ==> c.isIDRFrame && c.channels[ch].isSetup)
  }

  ghost predicate StaysGuarded(c: Conn, r: Conn, opens: bool, mine: nat) {
    && c.Valid() && r.Valid() && mine < CHANNELS
    && (Guarded(c, mine) ==> Guarded(r, mine)) && r.channels[mine].isSetup == c.channels[mine].isSetup
    && (r.isIDRFrame <==> c.isIDRFrame || opens)
    && (c.isClosed ==> r.isClosed && r.sent == c.sent)
  }

  lemma {:induction false} OfferedIsGuarded(net: Network, c: Conn, ch: nat, frameType: nat, last: nat, ts: nat,
      payload: seq<byte>, mine: nat)
    requires c.Valid() && ch < CHANNELS && last < 2 && ts < TWO_32 && mine < CHANNELS
    ensures StaysGuarded(c, Offered(net, c, ch, frameType, last, ts, payload),
                         frameType == 0 || frameType == VIDEO_FRAME_I, mine)
  {
    hide Offered, RtpHeader.Encode, On, Unsent;
    OfferedIs(net, c, ch, frameType, last, ts, payload);
    OnSnoc(c.sent, PacketOf(c, ch, last, ts, payload), mine);
  }

  lemma {:induction false} PacketsAreGuarded(net: Network, c: Conn, ch: nat, frameType: nat, ts: nat,
      ps: seq<seq<byte>>, n: nat, mine: nat)
    requires c.Valid() && ch < CHANNELS && ts < TWO_32 && n <= |ps| && mine < CHANNELS
    ensures StaysGuarded(c, OfferedPackets(net, c, ch, frameType, ts, ps, n),
                         n > 0 && (frameType == 0 || frameType == VIDEO_FRAME_I), mine)
  {
    hide Offered, On, Unsent;
    if n > 0 {
      PacketsAreGuarded(net, c, ch, frameType, ts, ps, n - 1, mine);
      OfferedIsGuarded(net, OfferedPackets(net, c, ch, frameType, ts, ps, n - 1), ch, frameType,
                       if n == |ps| then 1 else 0, ts, ps[n - 1], mine);
    }
  }

  lemma {:induction false} StepIsGuarded(net: Network, c: Conn, e: Event, mine: nat)
    requires c.Valid() && e.Valid() && mine < CHANNELS
    ensures var r := Step(net, c, e);
            && (Guarded(c, mine) ==> Guarded(r, mine))
            && (r.channels[mine].isSetup <==> c.channels[mine].isSetup || (e.SetUpEvent? && e.ch == mine))
            && (r.isIDRFrame <==> c.isIDRFrame || e.Opens())
            && (c.isClosed ==> r.isClosed && r.sent == c.sent)
            && (e.TeardownEvent? ==> r.isClosed && r.sent == c.sent)
  {
    hide OfferedPackets, Payloads, On, Written, Replied, TornDown, Unsent;
    if e.MediaEvent? {
      var ps := Payloads(e.codec, e.frame.data);
      PacketsAreGuarded(net, c, e.ch, e.frame.frameType, e.frame.Timestamp(e.now), ps, |ps|, mine);
    } else if e.WritableEvent? || e.ReplyEvent? || e.TeardownEvent? {
      SocketStep(net, c, e);
    }
  }

  /** In every run from a new connection, something has been handed over on a channel only if an I
      frame or an untyped frame has been offered (on either channel) and the channel was set up. */
  lemma {:induction false} NothingBeforeTheGate(net: Network, ts: seq<nat>, ssrc: seq<nat>, es: seq<Event>, ch: nat)
    requires New(ts, ssrc) && ch < CHANNELS && AllValid(es)
    ensures var r := Run(net, Initial(ts, ssrc), es);
            && Guarded(r, ch)
            && (r.isIDRFrame <==> exists k :: 0 <= k < |es| && es[k].Opens())
            && (r.channels[ch].isSetup <==> exists k :: 0 <= k < |es| && es[k].SetUpEvent? && es[k].ch == ch)
            && (On(r.sent, ch) != [] ==> exists k :: 0 <= k < |es| && es[k].Opens())
  {
    hide Step;
    if es != [] {
      var init, e := es[..|es| - 1], es[|es| - 1];
      NothingBeforeTheGate(net, ts, ssrc, init, ch);
      StepIsGuarded(net, Run(net, Initial(ts, ssrc), init), e, ch);
      assert forall k | 0 <= k < |init| :: init[k] == es[k];
      assert es[|es| - 1] == e;
    }
  }

  /** After a teardown, or a failed send, nothing more is handed over whatever happens. */
  lemma {:induction false} NothingAfterTeardown(net: Network, c: Conn, es: seq<Event>)
    requires c.Valid() && AllValid(es) && c.isClosed
    ensures var r := Run(net, c, es); r.isClosed && r.sent == c.sent
  {
    hide Step;
    if es != [] {
      NothingAfterTeardown(net, c, es[..|es| - 1]);
      StepIsGuarded(net, Run(net, c, es[..|es| - 1]), es[|es| - 1], 0);
    }
  }

  // -- Whether an I frame comes first -------------------------------------------------------

  /** A frame on `ch` of which something is handed over opens the gate. */
  ghost predicate IFrameFirst(net: Network, c: Conn, ch: nat)
    requires c.Valid()
  {
    forall e: Event | e.Valid() && e.MediaEvent? && e.ch == ch && Step(net, c, e).sent != c.sent :: e.Opens()
  }

  /** A client that has started on a channel is handed an I frame (or an untyped one) first if and
      only if its gate has not been opened before. */
  lemma {:induction false} IFrameFirstIff(net: Network, c: Conn, ch: nat)
    requires c.Valid() && ch < CHANNELS && !c.isClosed && c.channels[ch].Started()
    requires c.transport.OverTcp? || !Refused(net(c.socket.attempts), false)
    ensures IFrameFirst(net, c, ch) <==> !c.isIDRFrame
  {
    hide Payloads, OfferedPackets, Unsent;
    if c.isIDRFrame {
      var e := MediaEvent(ch, H264, AVFrame([65], 2, 1), 0);
      OnePacketFrame(net, c, e);
      assert e.Valid() && Step(net, c, e).sent != c.sent && !e.Opens();
    } else {
      forall e: Event | e.Valid() && e.MediaEvent? && e.ch == ch && Step(net, c, e).sent != c.sent ensures e.Opens() {
        WholeFrames(net, c, e);
      }
    }
  }

  /** A frame of one packet, which is handed over. */
  lemma {:induction false} OnePacketFrame(net: Network, c: Conn, e: Event)
    requires c.Valid() && e.Valid() && e.MediaEvent? && |e.frame.data| <= MAX_PAYLOAD
    requires Passes(c, e.ch, e.frame.frameType)
    requires c.transport.OverTcp? || !Refused(net(c.socket.attempts), false)
    ensures var r := Step(net, c, e);
            |r.sent| == |c.sent| + 1 && c.sent <= r.sent && Carries(r.sent[|c.sent|], e.ch, e.frame.data)
  {
    hide Payloads, RtpHeader.Encode, Unsent, Streamed, Datagram;
    var ps, ts := Payloads(e.codec, e.frame.data), e.frame.Timestamp(e.now);
    assert OfferedPackets(net, c, e.ch, e.frame.frameType, ts, ps, 0) == c;
    OneSend(net, c, e.ch, e.frame.frameType, ts, e.frame.data);
    WholeFrames(net, c, e);
  }

  lemma {:induction false} OneSend(net: Network, c: Conn, ch: nat, frameType: nat, ts: nat, payload: seq<byte>)
    requires c.Valid() && ch < CHANNELS && ts < TWO_32 && Passes(c, ch, frameType)
    requires c.transport.OverTcp? || !Refused(net(c.socket.attempts), false)
    ensures |Offered(net, c, ch, frameType, 1, ts, payload).sent| == |c.sent| + 1
  {
    hide Flushed, FlushedTo, RtpHeader.Encode, Unsent;
  }

  /** The run of the comment in setRtpHeader: an I frame before PLAY opens the gate and is not sent,
      and then the first packet the client gets is that of a P frame. */
  lemma {:induction false} PFrameFirst(net: Network, ts: seq<nat>, ssrc: seq<nat>, i: AVFrame, p: AVFrame, now: nat)
    requires New(ts, ssrc) && i.Valid() && p.Valid() && now < TWO_32
    requires i.frameType == VIDEO_FRAME_I && p.frameType == 2 && |p.data| <= MAX_PAYLOAD && !Refused(net(0), false)
    ensures var es := [SetUpEvent(0, OverUdp, 0), MediaEvent(0, H264, i, now), PlayEvent, MediaEvent(0, H264, p, now)];
            && AllValid(es)
            && |Run(net, Initial(ts, ssrc), es).sent| == 1
            && Carries(Run(net, Initial(ts, ssrc), es).sent[0], 0, p.data)
  {
    hide Step, Run, Initial, OfferedFrame, Payloads, Unsent, Carries;
    var e1, e2, e3, e4 := SetUpEvent(0, OverUdp, 0), MediaEvent(0, H264, i, now), PlayEvent, MediaEvent(0, H264, p, now);
    var c0 := Initial(ts, ssrc);
    GateOpened(net, ts, ssrc, i, now);
    var c3 := Step(net, Step(net, Step(net, c0, e1), e2), e3);
    OnePacketFrame(net, c3, e4);
    FourSteps(net, c0, e1, e2, e3, e4);
  }

  lemma {:induction false} GateOpened(net: Network, ts: seq<nat>, ssrc: seq<nat>, i: AVFrame, now: nat)
    requires New(ts, ssrc) && i.Valid() && now < TWO_32 && i.frameType == VIDEO_FRAME_I
    ensures var c := Step(net, Step(net, Step(net, Initial(ts, ssrc), SetUpEvent(0, OverUdp, 0)),
                                    MediaEvent(0, H264, i, now)), PlayEvent);
            && c.isIDRFrame && c.channels[0].isPlay && !c.isClosed && c.transport.OverUdp?
            && c.socket.attempts == 0 && c.sent == []
  {
    hide OfferedFrame, Payloads, Unsent;
    NotStarted(net, Step(net, Initial(ts, ssrc), SetUpEvent(0, OverUdp, 0)), MediaEvent(0, H264, i, now));
  }

  /** A frame on a channel that has not started only opens the gate. */
  lemma {:induction false} NotStarted(net: Network, c: Conn, e: Event)
    requires c.Valid() && e.Valid() && e.MediaEvent? && !c.isClosed && !c.channels[e.ch].Started()
    ensures Step(net, c, e) == c.(isIDRFrame := c.isIDRFrame || e.Opens())
  {
    hide Payloads, OfferedPackets, Unsent;
    var ps := Payloads(e.codec, e.frame.data);
    PacketsNotStarted(net, c, e.ch, e.frame.frameType, e.frame.Timestamp(e.now), ps, |ps|);
  }

  lemma {:induction false} PacketsNotStarted(net: Network, c: Conn, ch: nat, frameType: nat, ts: nat,
      ps: seq<seq<byte>>, n: nat)
    requires c.Valid() && ch < CHANNELS && ts < TWO_32 && n <= |ps| && !c.isClosed && !c.channels[ch].Started()
    ensures OfferedPackets(net, c, ch, frameType, ts, ps, n)
      == c.(isIDRFrame := c.isIDRFrame || (n > 0 && (frameType == 0 || frameType == VIDEO_FRAME_I)))
  {
    hide Attempted, RtpHeader.Encode, Unsent;
    if n > 0 {
      PacketsNotStarted(net, c, ch, frameType, ts, ps, n - 1);
    }
  }

  lemma {:induction false} RunNone(net: Network, c: Conn)
    requires c.Valid()
    ensures AllValid([]) && Run(net, c, []) == c
  {
  }

  lemma {:induction false} FourSteps(net: Network, c: Conn, e1: Event, e2: Event, e3: Event, e4: Event)
    requires c.Valid() && e1.Valid() && e2.Valid() && e3.Valid() && e4.Valid()
    ensures AllValid([e1, e2, e3, e4])
    ensures Run(net, c, [e1, e2, e3, e4]) == Step(net, Step(net, Step(net, Step(net, c, e1), e2), e3), e4)
  {
    hide Step, Event.Valid, Run, Conn.Valid;
    assert AllValid([]) && Run(net, c, []) == c by { RunNone(net, c); }
    RunOf(net, c, [], e1);
    RunOf(net, c, [e1], e2);
    RunOf(net, c, [e1, e2], e3);
    RunOf(net, c, [e1, e2, e3], e4);
    assert [] + [e1] == [e1] && [e1] + [e2] == [e1, e2] && [e1, e2] + [e3] == [e1, e2, e3];
    assert [e1, e2, e3] + [e4] == [e1, e2, e3, e4];
  }

  lemma {:induction false} RunOf(net: Network, c: Conn, es: seq<Event>, e: Event)
    requires c.Valid() && AllValid(es) && e.Valid()
    ensures AllValid(es + [e]) && Run(net, c, es + [e]) == Step(net, Run(net, c, es), e)
  {
    assert (es + [e])[..|es + [e]| - 1] == es;
  }
}
