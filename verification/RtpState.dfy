/** The state of one RTP connection as a value, and what its operations do to it. */
module RtpState {
  import opened Bytes
  import opened RtpPacket
  import opened BufferWriters

  const CHANNELS := 2
  const VIDEO_FRAME_I := 1
  /** The capacity of the write queue of an RTSP connection. */
  const QUEUE := 300

  datatype Transport = NotSetUp | OverTcp | OverUdp | OverMulticast

  /** What the RTP descriptor of a channel refers to: nothing yet, the socket of the RTSP connection,
      a datagram socket, or a socket that has been closed again. */
  datatype Descriptor = NoSocket | RtspSocket | DatagramSocket | ClosedSocket

  datatype Channel = Channel(
    header: RtpHeader, rtpChannel: nat, rtpfd: Descriptor, packetSeq: nat, packetCount: nat, octetCount: nat,
    isSetup: bool, isPlay: bool, isRecord: bool)
  {
    predicate Valid() { header.Valid() && packetSeq < 0x1_0000 }

    predicate Started() { isPlay || isRecord }
  }

  /** One packet handed to the transport: sent by sendto, or over TCP put in the write queue, unless
      the queue was full and it was dropped; and the descriptor it was sent to. */
  datatype Sent = Sent(ch: nat, tcp: bool, rtpfd: Descriptor, rtpChannel: nat, rtp: seq<byte>, dropped: bool) {
    function Bytes(): seq<byte>
      requires tcp
    {
      Interleave(rtpChannel, rtp)
    }

    /** The socket is not one of its transport. */
    predicate Astray() {
      if tcp then !rtpfd.RtspSocket? else !rtpfd.DatagramSocket?
    }

    predicate Lost() { dropped || Astray() }
  }

  /** `isGone` tells whether the RTSP connection itself has been closed, and `isWriting` whether its
      socket is watched for writing; `stream` is everything that has been put in its write queue. */
  datatype Conn = Conn(
    transport: Transport, isClosed: bool, isGone: bool, isIDRFrame: bool, isWriting: bool, channels: seq<Channel>,
    socket: Socket, stream: seq<Chunk>, sent: seq<Sent>)
  {
    ghost predicate Valid() {
      |channels| == CHANNELS && channels[0].Valid() && channels[1].Valid() && socket.Valid()
    }

    predicate QueueFull() { |socket.queue| >= QUEUE }

    /** The gate of setRtpHeader and sendRtpPacket. */
    predicate Active(ch: nat)
      requires |channels| == CHANNELS && ch < CHANNELS
    {
      channels[ch].Started() && isIDRFrame
    }

    /** The descriptor of the channel is one of the current transport. */
    predicate Matched(ch: nat)
      requires |channels| == CHANNELS && ch < CHANNELS
    {
      if transport.OverTcp? then channels[ch].rtpfd.RtspSocket? else channels[ch].rtpfd.DatagramSocket?
    }

    /** What is sent on the channel goes into the byte stream as interleaved packets or not at all. */
    predicate OwnStream(ch: nat)
      requires |channels| == CHANNELS && ch < CHANNELS
    {
      transport.OverTcp? <==> channels[ch].rtpfd.RtspSocket?
    }
  }

  // -- Control operations -----------------------------------------------------------------

  function Initial(ts: seq<nat>, ssrc: seq<nat>): (c: Conn)
    requires |ts| == |ssrc| == CHANNELS
    requires forall k | 0 <= k < CHANNELS :: ts[k] < TWO_32 && ssrc[k] < TWO_32
    ensures c.Valid()
  {
    Conn(NotSetUp, false, false, false, false,
         [Channel(RtpHeader(0, 0, 1, ts[0], ssrc[0]), 0, NoSocket, 1, 0, 0, false, false, false),
          Channel(RtpHeader(0, 0, 1, ts[1], ssrc[1]), 0, NoSocket, 1, 0, 0, false, false, false)],
         Socket(0, [], []), [], [])
  }

  function PayloadTypeSet(c: Conn, ch: nat, payload: nat): (r: Conn)
    requires c.Valid() && ch < CHANNELS
    ensures r.Valid()
  {
    var m := c.channels[ch];
    c.(channels := c.channels[ch := m.(header := m.header.(payload := payload % 128))])
  }

  /** The transport becomes that of the connection, the socket that of the channel only. */
  function SetUp(c: Conn, ch: nat, transport: Transport, rtpChannel: nat): (r: Conn)
    requires c.Valid() && ch < CHANNELS
    ensures r.Valid()
  {
    c.(transport := transport, channels := c.channels[ch := c.channels[ch].(
      isSetup := true, rtpChannel := rtpChannel, rtpfd := if transport.OverTcp? then RtspSocket else DatagramSocket)])
  }

  /** A SETUP over UDP for which no port pair could be bound leaves a closed descriptor behind. */
  function BindFailed(c: Conn, ch: nat): (r: Conn)
    requires c.Valid() && ch < CHANNELS
    ensures r.Valid()
  {
    c.(channels := c.channels[ch := c.channels[ch].(rtpfd := ClosedSocket)])
  }

  function ChannelPlay(m: Channel): Channel { if m.isSetup then m.(isPlay := true) else m }

  function ChannelRecord(m: Channel): Channel { if m.isSetup then m.(isRecord := true) else m }

  function ChannelStop(m: Channel): Channel { m.(isPlay := false, isRecord := false) }

  function Played(c: Conn): (r: Conn)
    requires c.Valid()
    ensures r.Valid()
  {
    c.(channels := [ChannelPlay(c.channels[0]), ChannelPlay(c.channels[1])])
  }

  function Recorded(c: Conn): (r: Conn)
    requires c.Valid()
    ensures r.Valid()
  {
    c.(channels := [ChannelRecord(c.channels[0]), ChannelRecord(c.channels[1])])
  }

  function TornDown(c: Conn): (r: Conn)
    requires c.Valid()
    ensures r.Valid()
    ensures r == c.(isClosed := true, channels := r.channels)
  {
    if c.isClosed then c
    else c.(isClosed := true, channels := [ChannelStop(c.channels[0]), ChannelStop(c.channels[1])])
  }

  // -- One packet -------------------------------------------------------------------------

  function Gated(c: Conn, frameType: nat): (r: Conn)
    requires c.Valid()
    ensures r.Valid()
  {
    c.(isIDRFrame := c.isIDRFrame || frameType == 0 || frameType == VIDEO_FRAME_I)
  }

  /** setRtpHeader: what it does to the connection. */
  function Numbered(c: Conn, ch: nat, last: nat, ts: nat): (r: Conn)
    requires c.Valid() && ch < CHANNELS && last < 2 && ts < TWO_32
    ensures r.Valid() && (r.Active(ch) <==> c.Active(ch))
  {
    if !c.Active(ch) then c
    else
      var m := c.channels[ch];
      c.(channels := c.channels[ch := m.(
        header := m.header.(marker := last, ts := ts, seqno := m.packetSeq),
        packetSeq := (m.packetSeq + 1) % 0x1_0000)])
  }

  function Counted(c: Conn, ch: nat, size: nat): (r: Conn)
    requires c.Valid() && ch < CHANNELS
    ensures r.Valid()
  {
    var m := c.channels[ch];
    c.(channels := c.channels[ch := m.(
      octetCount := (m.octetCount + size) % TWO_64, packetCount := (m.packetCount + 1) % TWO_64)])
  }

  /** A send that tears the connection down; to sendto a blocked socket is an error too. */
  predicate Refused(o: Outcome, tcp: bool) { o.Failed? || (!tcp && o.n == 0) }

  /** The socket after a sendto on a descriptor: the stream socket of the RTSP connection takes bare
      bytes, and perhaps not all of them; a datagram goes as a whole. */
  function Bare(s: Socket, fd: Descriptor, n: nat, rtp: seq<byte>): (r: Socket)
    requires s.Valid()
    ensures r.Valid()
    ensures r.attempts == s.attempts + 1 && r.queue == s.queue && s.wire <= r.wire
  {
    Socket(s.attempts + 1, s.queue, if fd.RtspSocket? then s.wire + rtp[..Least(n, |rtp|)] else s.wire)
  }

  /** sendRtpOverUdp: one sendto; a failure tears the connection down. */
  function Datagram(net: Network, c: Conn, ch: nat, rtp: seq<byte>): (r: Conn)
    requires c.Valid() && ch < CHANNELS
    ensures r.Valid()
  {
    var o, fd := net(c.socket.attempts), c.channels[ch].rtpfd;
    if Refused(o, false) then TornDown(c.(socket := c.socket.(attempts := c.socket.attempts + 1)))
    else c.(socket := Bare(c.socket, fd, o.n, rtp), sent := c.sent + [Sent(ch, false, fd, 0, rtp, false)])
  }

  /** The packet goes to the end of the write queue, if that has room. */
  function Enqueued(c: Conn, ch: nat, rtp: seq<byte>): (r: Conn)
    requires c.Valid() && ch < CHANNELS
    ensures r.Valid()
    ensures r.socket.attempts == c.socket.attempts && |r.socket.queue| <= |c.socket.queue| + 1
  {
    var m := c.channels[ch];
    var s := Sent(ch, true, m.rtpfd, m.rtpChannel, rtp, c.QueueFull());
    c.(socket := if s.dropped then c.socket else c.socket.(queue := c.socket.queue + [s.Bytes()]),
       stream := if s.dropped then c.stream else c.stream + [Media(m.rtpChannel % 256, rtp)],
       sent := c.sent + [s])
  }

  /** sendRtpOverTcp: the result of the append is ignored, and then the queue is sent as far as the
      socket takes it; a failure tears the connection down. The socket comes to be watched for
      writing when nothing is left to write. */
  function Streamed(net: Network, c: Conn, ch: nat, rtp: seq<byte>): (r: Conn)
    requires c.Valid() && ch < CHANNELS
    ensures r.Valid()
  {
    var q := Enqueued(c, ch, rtp);
    var f := FlushedTo(net, q.socket, c.channels[ch].rtpfd.RtspSocket?);
    if f.failed then TornDown(q.(socket := f.socket))
    else q.(socket := f.socket, isWriting := c.isWriting || f.socket.queue == [])
  }

  function Attempted(net: Network, c: Conn, ch: nat, rtp: seq<byte>): (r: Conn)
    requires c.Valid() && ch < CHANNELS
    ensures r.Valid()
  {
    if c.transport.OverTcp? then Streamed(net, c, ch, rtp) else Datagram(net, c, ch, rtp)
  }

  /** sendRtpPacket on the packet `rtp`, which lies 4 bytes into the buffer. */
  function Transmitted(net: Network, c: Conn, ch: nat, rtp: seq<byte>): (r: Conn)
    requires c.Valid() && ch < CHANNELS
    ensures r.Valid()
  {
    if c.isClosed || !c.Active(ch) then c
    else Counted(Attempted(net, c, ch, rtp), ch, TCP_HEAD + |rtp|)
  }

  /** What the fan-out does to one client for one packet of a frame. */
  function Offered(net: Network, c: Conn, ch: nat, frameType: nat, last: nat, ts: nat, payload: seq<byte>): (r: Conn)
    requires c.Valid() && ch < CHANNELS && last < 2 && ts < TWO_32
    ensures r.Valid()
  {
    var n := Numbered(Gated(c, frameType), ch, last, ts);
    Transmitted(net, n, ch, n.channels[ch].header.Encode() + payload)
  }

  // -- The RTSP connection in between --------------------------------------------------------

  /** RtspConnection::handleWrite sends what is queued; if that fails, handleClose takes the client
      out of its session. When nothing is left the socket is no longer watched. */
  function Written(net: Network, c: Conn): (r: Conn)
    requires c.Valid()
    ensures r.Valid()
  {
    if c.isGone then c
    else
      var f := Flushed(net, c.socket);
      if f.failed then TornDown(c.(socket := f.socket)).(isGone := true)
      else c.(socket := f.socket, isWriting := c.isWriting && f.socket.queue != [])
  }

  /** A message goes to the end of the write queue, if that has room. */
  function Appended(c: Conn, text: seq<byte>): (r: Conn)
    requires c.Valid()
    ensures r.Valid()
    ensures r == c.(socket := r.socket, stream := r.stream) && r.socket.attempts == c.socket.attempts
    ensures |r.socket.queue| <= |c.socket.queue| + 1 && (c.QueueFull() ==> r.socket == c.socket)
  {
    if text == [] || c.QueueFull() then c
    else c.(socket := c.socket.(queue := c.socket.queue + [text]), stream := c.stream + [Message(text)])
  }

  /** RtspConnection::sendMessage: the message is queued, and the queue is sent as far as the socket
      takes it; the socket comes to be watched for writing when something is left. */
  function Replied(net: Network, c: Conn, text: seq<byte>): (r: Conn)
    requires c.Valid()
    ensures r.Valid()
  {
    if c.isGone then c
    else
      var q := Appended(c, text);
      var f := Flushed(net, q.socket);
      if f.failed then TornDown(q.(socket := f.socket)).(isGone := true)
      else q.(socket := f.socket, isWriting := c.isWriting || f.socket.queue != [])
  }
}
