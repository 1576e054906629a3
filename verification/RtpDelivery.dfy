/** From frames to frames: what an RTP receiver makes of the packets one client is sent. */
module RtpDelivery {
  import opened Bytes
  import opened RtpPacket
  import opened BufferWriters
  import opened RtpState
  import opened Packetizer
  import opened VideoSources
  import opened RtpRuns

  // -- The receiver -----------------------------------------------------------------------

  datatype Unit = Unit(ts: nat, nal: seq<byte>)

  /** A frame as the receiver should see it: the time stamp is that of the frame, or that of the clock
      if the frame has none. */
  function UnitOf(f: AVFrame, now: nat): Unit {
    Unit(if f.timestamp == 0 then now else f.timestamp, f.data)
  }

  /** A receiver that tolerates nothing: `ok` stays true only while sequence numbers are
      consecutive, every packet completes its frame exactly when its marker is set, and all
      fragments of a frame agree on timestamp and NAL header. */
  datatype RtpReceiver = RtpReceiver(ok: bool, next: nat, open: bool, ts: nat, partial: seq<byte>, units: seq<Unit>)

  function Refused(r: RtpReceiver): RtpReceiver { r.(ok := false) }

  function Accept(codec: Codec, r: RtpReceiver, rtp: seq<byte>): RtpReceiver {
    if !r.ok || |rtp| < RTP_HEADER || rtp[0] != 0x80 || Decode(rtp).seqno != r.next then Refused(r)
    else Take(codec, r.(next := (r.next + 1) % 0x1_0000), Decode(rtp), Classify(codec, rtp[RTP_HEADER..]))
  }

  function Take(codec: Codec, r: RtpReceiver, h: RtpHeader, p: Piece): RtpReceiver {
    match p
    case Single(nal) =>
      if r.open || h.marker != 1 then Refused(r) else r.(units := r.units + [Unit(h.ts, nal)])
    case Part(first, last, header, body) =>
      if first == r.open || (first && last) || body == [] || (h.marker == 1) != last then Refused(r)
      else if !first && (h.ts != r.ts || !(header <= r.partial)) then Refused(r)
      else
        var whole := if first then header + body else r.partial + body;
        if last then r.(open := false, partial := [], units := r.units + [Unit(h.ts, whole)])
        else r.(open := true, ts := h.ts, partial := whole)
  }

  /** The receiver of channel `ch` after everything the client has been sent: it gets the packets that
      were not dropped and went to the socket of their transport. */
  function Received(codec: Codec, r: RtpReceiver, sent: seq<Sent>, ch: nat): RtpReceiver {
    if sent == [] then r
    else
      var before := Received(codec, r, sent[..|sent| - 1], ch);
      var s := sent[|sent| - 1];
      if s.ch == ch && !s.Lost() then Accept(codec, before, s.rtp) else before
  }

  lemma {:induction false} ReceivedSnoc(codec: Codec, r: RtpReceiver, sent: seq<Sent>, s: Sent, ch: nat)
    ensures Received(codec, r, sent + [s], ch)
      == if s.ch == ch && !s.Lost() then Accept(codec, Received(codec, r, sent, ch), s.rtp)
         else Received(codec, r, sent, ch)
  {
    assert (sent + [s])[..|sent + [s]| - 1] == sent;
  }

  /** The receiver reads the header that was written, and the payload behind it. */
  lemma {:induction false} Reads(codec: Codec, r: RtpReceiver, h: RtpHeader, payload: seq<byte>)
    requires h.Valid() && r.ok && h.seqno == r.next
    ensures Accept(codec, r, h.Encode() + payload)
      == Take(codec, r.(next := (r.next + 1) % 0x1_0000), h, Classify(codec, payload))
  {
    hide Classify, Take;
    HeaderRoundTrip(h, payload);
  }

  // -- One packet -------------------------------------------------------------------------

  /** A client that is up and playing (or recording) on `ch`, past the I-frame gate. */
  ghost predicate Ready(c: Conn, ch: nat) {
    c.Valid() && ch < CHANNELS && !c.isClosed && c.Active(ch)
  }

  /** Since `c`, no packet of channel `ch` has been dropped. */
  ghost predicate NoneDropped(c: Conn, r: Conn, ch: nat) {
    forall k | |c.sent| <= k < |r.sent| && r.sent[k].ch == ch :: !r.sent[k].dropped
  }

  /** ... nor sent to a socket of another transport. */
  ghost predicate NoneLost(c: Conn, r: Conn, ch: nat) {
    c.sent <= r.sent && forall k | |c.sent| <= k < |r.sent| && r.sent[k].ch == ch :: !r.sent[k].Lost()
  }

  /** A packet for a client that is ready, which a failed send has not closed. */
  lemma {:induction false} OnePacket(net: Network, c: Conn, ch: nat, frameType: nat, last: nat, ts: nat,
      payload: seq<byte>)
    requires c.Valid() && ch < CHANNELS && last < 2 && ts < TWO_32
    ensures var r, s := Offered(net, c, ch, frameType, last, ts, payload), PacketOf(c, ch, last, ts, payload);
            && c.sent <= r.sent && (c.isClosed ==> r.isClosed)
            && (!r.isClosed && Ready(c, ch) ==>
                  Ready(r, ch) && r.sent == c.sent + [s]
                  && r.channels[ch].packetSeq == (c.channels[ch].packetSeq + 1) % 0x1_0000)
  {
    hide Offered, RtpHeader.Encode, Unsent;
    OfferedIs(net, c, ch, frameType, last, ts, payload);
  }

  lemma {:induction false} PacketsGrow(net: Network, c: Conn, ch: nat, frameType: nat, ts: nat,
      ps: seq<seq<byte>>, n: nat)
    requires c.Valid() && ch < CHANNELS && ts < TWO_32 && n <= |ps|
    ensures var r := OfferedPackets(net, c, ch, frameType, ts, ps, n);
            c.sent <= r.sent && (c.isClosed ==> r.isClosed)
  {
    hide Offered, RtpHeader.Encode, Unsent;
    if n > 0 {
      PacketsGrow(net, c, ch, frameType, ts, ps, n - 1);
      OnePacket(net, OfferedPackets(net, c, ch, frameType, ts, ps, n - 1), ch, frameType,
                if n == |ps| then 1 else 0, ts, ps[n - 1]);
    }
  }

  // -- One frame --------------------------------------------------------------------------

  /** The receiver of `ch` waits for the next frame. */
  ghost predicate InSync(r: RtpReceiver, c: Conn, ch: nat) {
    c.Valid() && ch < CHANNELS && r.ok && !r.open && r.next == c.channels[ch].packetSeq
  }

  /** It has seen `n` fragments of a frame, and `units` before it. */
  ghost predicate Assembling(codec: Codec, r: RtpReceiver, c: Conn, ch: nat, ts: nat, nal: seq<byte>, n: nat,
      units: seq<Unit>)
  {
    && |nal| > MAX_PAYLOAD && n <= Fragments(codec, |nal|)
    && c.Valid() && ch < CHANNELS && r.ok && r.next == c.channels[ch].packetSeq
    && (n == 0 ==> !r.open && r.units == units)
    && (0 < n < Fragments(codec, |nal|) ==>
          r.open && r.ts == ts && r.units == units && r.partial == nal[..BodyEnd(codec, |nal|, n - 1)])
    && (n == Fragments(codec, |nal|) ==> !r.open && r.units == units + [Unit(ts, nal)])
  }

  lemma {:induction false} TakesFragment(codec: Codec, r: RtpReceiver, c: Conn, ch: nat, ts: nat,
      nal: seq<byte>, n: nat, units: seq<Unit>,
                      h: RtpHeader, next: Conn)
    requires Assembling(codec, r, c, ch, ts, nal, n, units) && n < Fragments(codec, |nal|)
    requires h.ts == ts && h.marker == if n + 1 == Fragments(codec, |nal|) then 1 else 0
    requires next.Valid() && next.channels[ch].packetSeq == (c.channels[ch].packetSeq + 1) % 0x1_0000
    ensures var p := Classify(codec, Fragment(codec, nal, n));
            Assembling(codec, Take(codec, r.(next := (r.next + 1) % 0x1_0000), h, p), next, ch, ts, nal, n + 1, units)
  {
    hide Fragment, Classify, Body;
    FragmentReads(codec, nal, n);
    BodyFollows(codec, nal, n);
  }

  /** What has been assembled before a fragment, and the fragment's body. */
  lemma {:induction false} BodyFollows(codec: Codec, nal: seq<byte>, n: nat)
    requires |nal| > MAX_PAYLOAD && n < Fragments(codec, |nal|)
    ensures nal[..BodyEnd(codec, |nal|, n)]
      == (if n == 0 then nal[..codec.HeaderLen()] else nal[..BodyEnd(codec, |nal|, n - 1)]) + Body(codec, nal, n)
    ensures Body(codec, nal, n) != [] && nal[..|nal|] == nal
  {
  }

  lemma {:induction false} LargeFrame(
    net: Network, c: Conn, ch: nat, codec: Codec, frameType: nat, ts: nat, nal: seq<byte>, n: nat, r0: RtpReceiver)
    requires Ready(c, ch) && ts < TWO_32 && |nal| > MAX_PAYLOAD && n <= Fragments(codec, |nal|)
    requires InSync(Received(codec, r0, c.sent, ch), c, ch)
    requires var r := OfferedPackets(net, c, ch, frameType, ts, Payloads(codec, nal), n);
             !r.isClosed && NoneLost(c, r, ch)
    ensures var r := OfferedPackets(net, c, ch, frameType, ts, Payloads(codec, nal), n);
            && Ready(r, ch)
            && Assembling(codec, Received(codec, r0, r.sent, ch), r, ch, ts, nal, n, Received(codec, r0, c.sent, ch).units)
  {
    hide Offered, RtpHeader.Encode, Payloads, Assembling, Received, Accept, Take, Classify, Fragment, Unsent;
    if n == 0 {
      AssemblingStarts(codec, Received(codec, r0, c.sent, ch), c, ch, ts, nal);
    } else {
      var ps, last := Payloads(codec, nal), if n == Fragments(codec, |nal|) then 1 else 0;
      var d := OfferedPackets(net, c, ch, frameType, ts, ps, n - 1);
      var r := Offered(net, d, ch, frameType, last, ts, ps[n - 1]);
      OnePacket(net, d, ch, frameType, last, ts, ps[n - 1]);
      PacketsGrow(net, c, ch, frameType, ts, ps, n - 1);
      LargeFrame(net, c, ch, codec, frameType, ts, nal, n - 1, r0);
      var rc, units := Received(codec, r0, d.sent, ch), Received(codec, r0, c.sent, ch).units;
      AssemblingIsOk(codec, rc, d, ch, ts, nal, n - 1, units);
      assert r.sent[|d.sent|] == PacketOf(d, ch, last, ts, ps[n - 1]);
      ReceivedSnoc(codec, r0, d.sent, r.sent[|d.sent|], ch);
      var h := HeaderOf(d, ch, last, ts);
      Reads(codec, rc, h, ps[n - 1]);
      TakesFragment(codec, rc, d, ch, ts, nal, n - 1, units, h, r);
    }
  }

  lemma {:induction false} AssemblingStarts(codec: Codec, r: RtpReceiver, c: Conn, ch: nat, ts: nat, nal: seq<byte>)
    requires InSync(r, c, ch) && |nal| > MAX_PAYLOAD
    ensures Assembling(codec, r, c, ch, ts, nal, 0, r.units)
  {
  }

  lemma {:induction false} AssemblingIsOk(codec: Codec, r: RtpReceiver, c: Conn, ch: nat, ts: nat,
      nal: seq<byte>, n: nat, units: seq<Unit>)
    requires Assembling(codec, r, c, ch, ts, nal, n, units)
    ensures c.Valid() && ch < CHANNELS && r.ok && r.next == c.channels[ch].packetSeq
  {
  }

  /** One frame that gets through: the receiver stays in sync and gains exactly this frame. */
  lemma {:induction false} FrameArrives(net: Network, c: Conn, ch: nat, codec: Codec, f: AVFrame, now: nat, r0: RtpReceiver)
    requires Ready(c, ch) && f.Valid() && now < TWO_32 && !Ambiguous(codec, f.data)
    requires InSync(Received(codec, r0, c.sent, ch), c, ch)
    requires var r := OfferedFrame(net, c, ch, codec, f, now); !r.isClosed && NoneLost(c, r, ch)
    ensures var r := OfferedFrame(net, c, ch, codec, f, now);
            var after := Received(codec, r0, r.sent, ch);
            && Ready(r, ch) && InSync(after, r, ch)
            && after.units == Received(codec, r0, c.sent, ch).units + [UnitOf(f, now)]
  {
    hide Received, RtpHeader.Encode, Accept, Fragment, Offered, Unsent;
    var ts, nal := f.Timestamp(now), f.data;
    if |nal| > MAX_PAYLOAD {
      LargeFrame(net, c, ch, codec, f.frameType, ts, nal, Fragments(codec, |nal|), r0);
    } else {
      var ps := Payloads(codec, nal);
      var r := Offered(net, c, ch, f.frameType, 1, ts, nal);
      assert OfferedPackets(net, c, ch, f.frameType, ts, ps, 0) == c;
      assert OfferedFrame(net, c, ch, codec, f, now) == r;
      OnePacket(net, c, ch, f.frameType, 1, ts, nal);
      assert r.sent[|c.sent|] == PacketOf(c, ch, 1, ts, nal);
      ReceivedSnoc(codec, r0, c.sent, r.sent[|c.sent|], ch);
      Reads(codec, Received(codec, r0, c.sent, ch), HeaderOf(c, ch, 1, ts), nal);
    }
  }

  // -- Nothing comes from nowhere -----------------------------------------------------------

  function UnitsWeight(us: seq<Unit>): nat {
    if us == [] then 0 else UnitsWeight(us[..|us| - 1]) + |us[|us| - 1].nal| + 1
  }

  /** What the receiver has: the bytes of its units, one for each unit, and the bytes in between. */
  function Weight(r: RtpReceiver): nat {
    UnitsWeight(r.units) + if r.open then |r.partial| else 0
  }

  /** What a packet can add to that. */
  function Load(p: Piece): nat {
    match p
    case Single(nal) => |nal| + 1
    case Part(first, last, header, body) => (if first then |header| else 0) + |body| + if last then 1 else 0
  }

  lemma {:induction false} UnitsWeightConcat(a: seq<Unit>, b: seq<Unit>)
    ensures UnitsWeight(a + b) == UnitsWeight(a) + UnitsWeight(b)
  {
    if b == [] {
      assert a + b == a;
    } else {
      assert (a + b)[..|a + b| - 1] == a + b[..|b| - 1];
      UnitsWeightConcat(a, b[..|b| - 1]);
    }
  }

  lemma {:induction false} TakeWeight(codec: Codec, r: RtpReceiver, h: RtpHeader, p: Piece)
    ensures Weight(Take(codec, r, h, p)) <= Weight(r) + Load(p)
  {
    var t := Take(codec, r, h, p);
    if t.units != r.units {
      assert t.units[..|t.units| - 1] == r.units;
    }
  }

  lemma {:induction false} AcceptWeight(codec: Codec, r: RtpReceiver, h: RtpHeader, payload: seq<byte>)
    requires h.Valid()
    ensures Weight(Accept(codec, r, h.Encode() + payload)) <= Weight(r) + Load(Classify(codec, payload))
  {
    hide Take, Load, Classify;
    HeaderRoundTrip(h, payload);
    TakeWeight(codec, r.(next := (r.next + 1) % 0x1_0000), h, Classify(codec, payload));
  }

  /** One packet adds its load at most, and nothing if it is dropped. */
  lemma {:induction false} PacketWeight(net: Network, c: Conn, ch: nat, frameType: nat, last: nat, ts: nat,
      payload: seq<byte>, codec: Codec, r0: RtpReceiver, from: Conn)
    requires Ready(c, ch) && last < 2 && ts < TWO_32 && from.sent <= c.sent
    requires !Offered(net, c, ch, frameType, last, ts, payload).isClosed
    ensures var r := Offered(net, c, ch, frameType, last, ts, payload);
            var before, after := Received(codec, r0, c.sent, ch), Received(codec, r0, r.sent, ch);
            && Ready(r, ch)
            && Weight(after) <= Weight(before) + Load(Classify(codec, payload))
            && (NoneLost(from, c, ch) && !NoneLost(from, r, ch) ==> Weight(after) == Weight(before))
            && (!NoneLost(from, c, ch) ==> !NoneLost(from, r, ch))
  {
    hide Offered, RtpHeader.Encode, Accept, Received, Weight, Load, Classify, Unsent;
    var r, s := Offered(net, c, ch, frameType, last, ts, payload), PacketOf(c, ch, last, ts, payload);
    OnePacket(net, c, ch, frameType, last, ts, payload);
    ReceivedSnoc(codec, r0, c.sent, s, ch);
    AcceptWeight(codec, Received(codec, r0, c.sent, ch), HeaderOf(c, ch, last, ts), payload);
    assert forall k | 0 <= k < |c.sent| :: r.sent[k] == c.sent[k];
  }

  /** What the first `n` fragments of a large frame can add. */
  function Share(codec: Codec, size: nat, n: nat): nat
    requires size > MAX_PAYLOAD && n <= Fragments(codec, size)
  {
    if n == 0 then 0 else BodyEnd(codec, size, n - 1) + if n == Fragments(codec, size) then 1 else 0
  }

  lemma {:induction false} FragmentLoad(codec: Codec, nal: seq<byte>, k: nat)
    requires |nal| > MAX_PAYLOAD && k < Fragments(codec, |nal|)
    ensures Share(codec, |nal|, k) + Load(Classify(codec, Fragment(codec, nal, k))) == Share(codec, |nal|, k + 1)
    ensures Load(Classify(codec, Fragment(codec, nal, k))) >= 1
  {
    hide Fragment, Classify;
    FragmentReads(codec, nal, k);
  }

  lemma {:induction false} LargeWeight(net: Network, c: Conn, ch: nat, codec: Codec, frameType: nat, ts: nat,
      nal: seq<byte>, n: nat, r0: RtpReceiver)
    requires Ready(c, ch) && ts < TWO_32 && |nal| > MAX_PAYLOAD && n <= Fragments(codec, |nal|)
    requires !OfferedPackets(net, c, ch, frameType, ts, Payloads(codec, nal), n).isClosed
    ensures var r := OfferedPackets(net, c, ch, frameType, ts, Payloads(codec, nal), n);
            && Ready(r, ch) && c.sent <= r.sent
            && Weight(Received(codec, r0, r.sent, ch)) + (if NoneLost(c, r, ch) then 0 else 1)
                 <= Weight(Received(codec, r0, c.sent, ch)) + Share(codec, |nal|, n)
  {
    hide Offered, RtpHeader.Encode, Payloads, Received, Weight, Load, Classify, Fragment, Share, Unsent;
    if n == 0 {
      assert Share(codec, |nal|, 0) >= 0;
    } else {
      var ps, last := Payloads(codec, nal), if n == Fragments(codec, |nal|) then 1 else 0;
      var d := OfferedPackets(net, c, ch, frameType, ts, ps, n - 1);
      OnePacket(net, d, ch, frameType, last, ts, ps[n - 1]);
      LargeWeight(net, c, ch, codec, frameType, ts, nal, n - 1, r0);
      PacketWeight(net, d, ch, frameType, last, ts, ps[n - 1], codec, r0, c);
      FragmentLoad(codec, nal, n - 1);
    }
  }

  /** A frame adds its bytes and one at most, and less if it is ambiguous or a packet is dropped. */
  lemma {:induction false} FrameWeight(net: Network, c: Conn, ch: nat, codec: Codec, f: AVFrame, now: nat, r0: RtpReceiver)
    requires Ready(c, ch) && f.Valid() && now < TWO_32
    requires !OfferedFrame(net, c, ch, codec, f, now).isClosed
    ensures var r := OfferedFrame(net, c, ch, codec, f, now);
            && Ready(r, ch)
            && Weight(Received(codec, r0, r.sent, ch))
                 + (if NoneLost(c, r, ch) && !Ambiguous(codec, f.data) then 0 else 1)
                 <= Weight(Received(codec, r0, c.sent, ch)) + |f.data| + 1
  {
    hide Received, RtpHeader.Encode, Fragment, Offered, Weight, Unsent;
    var ts, nal := f.Timestamp(now), f.data;
    if |nal| > MAX_PAYLOAD {
      LargeWeight(net, c, ch, codec, f.frameType, ts, nal, Fragments(codec, |nal|), r0);
    } else {
      var ps := Payloads(codec, nal);
      assert OfferedPackets(net, c, ch, f.frameType, ts, ps, 0) == c;
      assert OfferedFrame(net, c, ch, codec, f, now) == Offered(net, c, ch, f.frameType, 1, ts, nal);
      PacketWeight(net, c, ch, f.frameType, 1, ts, nal, codec, r0, c);
    }
  }

  /** Exactly this frame, in sync or not: what a receiver gains from one frame. */
  lemma {:induction false} OneFrame(net: Network, c: Conn, ch: nat, codec: Codec, f: AVFrame, now: nat, r0: RtpReceiver)
    requires Ready(c, ch) && f.Valid() && now < TWO_32
    requires InSync(Received(codec, r0, c.sent, ch), c, ch)
    requires !OfferedFrame(net, c, ch, codec, f, now).isClosed
    ensures var r := OfferedFrame(net, c, ch, codec, f, now);
            var before, after := Received(codec, r0, c.sent, ch), Received(codec, r0, r.sent, ch);
            (InSync(after, r, ch) && after.units == before.units + [UnitOf(f, now)])
            <==> !Ambiguous(codec, f.data) && NoneLost(c, r, ch)
  {
    hide Received, OfferedFrame, Ambiguous, Unsent;
    var r := OfferedFrame(net, c, ch, codec, f, now);
    if !Ambiguous(codec, f.data) && NoneLost(c, r, ch) {
      FrameArrives(net, c, ch, codec, f, now, r0);
    } else {
      FrameWeight(net, c, ch, codec, f, now, r0);
      var one := [UnitOf(f, now)];
      UnitsWeightConcat(Received(codec, r0, c.sent, ch).units, one);
      assert UnitsWeight(one) == UnitsWeight(one[..0]) + |f.data| + 1;
    }
  }

  /** The frame of three bytes 28, 128, 7 of an H.264 source: a receiver in sync takes its packet for
      the first fragment of a NAL unit of type 0, does not get the frame, and is out of sync. */
  lemma {:induction false} TakenForAFragment(net: Network, c: Conn, ch: nat, now: nat, r0: RtpReceiver)
    requires Ready(c, ch) && now < TWO_32 && InSync(Received(H264, r0, c.sent, ch), c, ch)
    requires var f := AVFrame([28, 128, 7], VIDEO_FRAME_I, 1);
             !OfferedFrame(net, c, ch, H264, f, now).isClosed && NoneLost(c, OfferedFrame(net, c, ch, H264, f, now), ch)
    ensures var r := OfferedFrame(net, c, ch, H264, AVFrame([28, 128, 7], VIDEO_FRAME_I, 1), now);
            var before, after := Received(H264, r0, c.sent, ch), Received(H264, r0, r.sent, ch);
            after.units == before.units && !after.ok
  {
    hide Received, RtpHeader.Encode, Offered, Unsent, Accept, Classify;
    var nal: seq<byte> := [28, 128, 7];
    var ps := Payloads(H264, nal);
    assert ps == [nal];
    var r := Offered(net, c, ch, VIDEO_FRAME_I, 1, 1, nal);
    assert OfferedPackets(net, c, ch, VIDEO_FRAME_I, 1, ps, 0) == c;
    OnePacket(net, c, ch, VIDEO_FRAME_I, 1, 1, nal);
    assert r.sent[|c.sent|] == PacketOf(c, ch, 1, 1, nal);
    ReceivedSnoc(H264, r0, c.sent, r.sent[|c.sent|], ch);
    Reads(H264, Received(H264, r0, c.sent, ch), HeaderOf(c, ch, 1, 1), nal);
    ReadAsPart();
  }

  lemma {:induction false} ReadAsPart()
    ensures Classify(H264, [28, 128, 7]) == Part(true, false, [0], [7])
  {
  }

  // -- Over a run -------------------------------------------------------------------------

  /** The frames of one channel, as the receiver should see them. */
  function UnitsOn(es: seq<Event>, ch: nat): seq<Unit> {
    if es == [] then []
    else
      var e := es[|es| - 1];
      UnitsOn(es[..|es| - 1], ch)
      + if e.MediaEvent? && e.ch == ch then [UnitOf(e.frame, e.now)] else []
  }

  ghost predicate SomeAmbiguous(es: seq<Event>, ch: nat) {
    exists k | 0 <= k < |es| :: es[k].MediaEvent? && es[k].ch == ch && Ambiguous(es[k].codec, es[k].frame.data)
  }

  /** What does not touch channel `mine`. */
  ghost predicate Untouched(c: Conn, r: Conn, mine: nat, codec: Codec, r0: RtpReceiver) {
    && Ready(r, mine) && c.Valid() && r.channels[mine].packetSeq == c.channels[mine].packetSeq
    && NoneLost(c, r, mine)
    && Received(codec, r0, r.sent, mine) == Received(codec, r0, c.sent, mine)
  }

  lemma {:induction false} OtherPacket(net: Network, c: Conn, ch: nat, frameType: nat, last: nat, ts: nat,
      payload: seq<byte>, mine: nat, codec: Codec, r0: RtpReceiver)
    requires c.Valid() && ch < CHANNELS && mine < CHANNELS && mine != ch && last < 2 && ts < TWO_32
    requires Ready(c, mine) && !Offered(net, c, ch, frameType, last, ts, payload).isClosed
    ensures Untouched(c, Offered(net, c, ch, frameType, last, ts, payload), mine, codec, r0)
  {
    hide Offered, RtpHeader.Encode, Accept, Received, Unsent;
    OfferedIs(net, c, ch, frameType, last, ts, payload);
    ReceivedSnoc(codec, r0, c.sent, PacketOf(c, ch, last, ts, payload), mine);
  }

  /** Frames on the other channel do not disturb the receiver of this one. */
  lemma {:induction false} OtherFrame(net: Network, c: Conn, ch: nat, frameType: nat, ts: nat,
      ps: seq<seq<byte>>, n: nat, mine: nat, codec: Codec, r0: RtpReceiver)
    requires ch < CHANNELS && mine < CHANNELS && mine != ch && ts < TWO_32 && n <= |ps|
    requires Ready(c, mine) && !OfferedPackets(net, c, ch, frameType, ts, ps, n).isClosed
    ensures Untouched(c, OfferedPackets(net, c, ch, frameType, ts, ps, n), mine, codec, r0)
  {
    hide Offered, Received, Unsent;
    if n > 0 {
      var d, last := OfferedPackets(net, c, ch, frameType, ts, ps, n - 1), if n == |ps| then 1 else 0;
      OnePacket(net, d, ch, frameType, last, ts, ps[n - 1]);
      OtherFrame(net, c, ch, frameType, ts, ps, n - 1, mine, codec, r0);
      OtherPacket(net, d, ch, frameType, last, ts, ps[n - 1], mine, codec, r0);
    }
  }

  /** Neither do requests and writable sockets, as long as the connection stays open. */
  lemma {:induction false} OtherStep(net: Network, c: Conn, e: Event, mine: nat, codec: Codec, r0: RtpReceiver)
    requires e.Valid() && Ready(c, mine) && !(e.MediaEvent? && e.ch == mine) && !Step(net, c, e).isClosed
    ensures Untouched(c, Step(net, c, e), mine, codec, r0)
  {
    hide OfferedPackets, Payloads, Received, Flushed, Unsent;
    if e.MediaEvent? {
      var ps := Payloads(e.codec, e.frame.data);
      OtherFrame(net, c, e.ch, e.frame.frameType, e.frame.Timestamp(e.now), ps, |ps|, mine, codec, r0);
    }
  }

  lemma {:induction false} StepGrows(net: Network, c: Conn, e: Event)
    requires c.Valid() && e.Valid()
    ensures c.sent <= Step(net, c, e).sent && (c.isClosed ==> Step(net, c, e).isClosed)
  {
    hide OfferedPackets, Payloads, Flushed, Unsent;
    if e.MediaEvent? {
      var ps := Payloads(e.codec, e.frame.data);
      PacketsGrow(net, c, e.ch, e.frame.frameType, e.frame.Timestamp(e.now), ps, |ps|);
    }
  }

  lemma {:induction false} RunGrows(net: Network, c: Conn, es: seq<Event>)
    requires c.Valid() && AllValid(es)
    ensures c.sent <= Run(net, c, es).sent
  {
    hide Step;
    if es != [] {
      RunGrows(net, c, es[..|es| - 1]);
      StepGrows(net, Run(net, c, es[..|es| - 1]), es[|es| - 1]);
    }
  }

  /** All frames on `ch` come from the same kind of source. */
  predicate OneCodec(es: seq<Event>, ch: nat, codec: Codec) {
    forall k | 0 <= k < |es| && es[k].MediaEvent? && es[k].ch == ch :: es[k].codec == codec
  }

  lemma {:induction false} RunArrives(net: Network, c: Conn, ch: nat, codec: Codec, es: seq<Event>, r0: RtpReceiver)
    requires Ready(c, ch) && AllValid(es) && OneCodec(es, ch, codec) && !SomeAmbiguous(es, ch)
    requires InSync(Received(codec, r0, c.sent, ch), c, ch)
    requires !Run(net, c, es).isClosed && NoneLost(c, Run(net, c, es), ch)
    ensures var r := Run(net, c, es);
            var after := Received(codec, r0, r.sent, ch);
            && Ready(r, ch) && InSync(after, r, ch)
            && after.units == Received(codec, r0, c.sent, ch).units + UnitsOn(es, ch)
  {
    hide Received, OfferedFrame, Ambiguous, Unsent;
    if es == [] {
      assert Received(codec, r0, c.sent, ch).units + [] == Received(codec, r0, c.sent, ch).units;
    } else {
      var init, e := es[..|es| - 1], es[|es| - 1];
      var d := Run(net, c, init);
      assert forall k | 0 <= k < |init| :: init[k] == es[k];
      StepGrows(net, d, e);
      RunGrows(net, c, init);
      RunArrives(net, c, ch, codec, init, r0);
      if e.MediaEvent? && e.ch == ch {
        FrameArrives(net, d, ch, codec, e.frame, e.now, r0);
      } else {
        OtherStep(net, d, e, ch, codec, r0);
      }
    }
  }

  lemma {:induction false} NoneLostSplit(c: Conn, d: Conn, r: Conn, ch: nat)
    requires c.sent <= d.sent <= r.sent
    ensures NoneLost(c, r, ch) <==> NoneLost(c, d, ch) && NoneLost(d, r, ch)
  {
    assert forall k | 0 <= k < |d.sent| :: d.sent[k] == r.sent[k];
  }

  lemma {:induction false} LastAmbiguous(es: seq<Event>, ch: nat)
    requires es != []
    ensures var e := es[|es| - 1];
            SomeAmbiguous(es, ch)
            <==> SomeAmbiguous(es[..|es| - 1], ch) || (e.MediaEvent? && e.ch == ch && Ambiguous(e.codec, e.frame.data))
  {
    hide Ambiguous;
    assert forall k | 0 <= k < |es| - 1 :: es[..|es| - 1][k] == es[k];
  }

  lemma {:induction false} RunWeight(net: Network, c: Conn, ch: nat, codec: Codec, es: seq<Event>, r0: RtpReceiver)
    requires Ready(c, ch) && AllValid(es) && OneCodec(es, ch, codec) && !Run(net, c, es).isClosed
    ensures var r := Run(net, c, es);
            && Ready(r, ch)
            && Weight(Received(codec, r0, r.sent, ch))
                 + (if NoneLost(c, r, ch) && !SomeAmbiguous(es, ch) then 0 else 1)
                 <= Weight(Received(codec, r0, c.sent, ch)) + UnitsWeight(UnitsOn(es, ch))
  {
    hide Received, OfferedFrame, Ambiguous, SomeAmbiguous, NoneLost, Weight, Unsent;
    if es == [] {
      assert !SomeAmbiguous(es, ch) && NoneLost(c, c, ch) by {
        NothingYet(c, ch);
      }
    } else {
      var init, e := es[..|es| - 1], es[|es| - 1];
      var d, r := Run(net, c, init), Run(net, c, es);
      StepGrows(net, d, e);
      RunGrows(net, c, init);
      RunWeight(net, c, ch, codec, init, r0);
      NoneLostSplit(c, d, r, ch);
      LastAmbiguous(es, ch);
      if e.MediaEvent? && e.ch == ch {
        FrameWeight(net, d, ch, codec, e.frame, e.now, r0);
        OneUnit(UnitsOn(init, ch), UnitOf(e.frame, e.now));
      } else {
        OtherStep(net, d, e, ch, codec, r0);
        assert UnitsOn(init, ch) + [] == UnitsOn(init, ch);
      }
    }
  }

  lemma {:induction false} NothingYet(c: Conn, ch: nat)
    ensures !SomeAmbiguous([], ch) && NoneLost(c, c, ch)
  {
  }

  lemma {:induction false} OneUnit(us: seq<Unit>, u: Unit)
    ensures UnitsWeight(us + [u]) == UnitsWeight(us) + |u.nal| + 1
  {
    assert (us + [u])[..|us + [u]| - 1] == us;
  }

  // -- Lost packets -------------------------------------------------------------------------

  /** What one event adds on channel `ch`. */
  lemma {:induction false} StepLoses(net: Network, c: Conn, e: Event, ch: nat)
    requires c.Valid() && e.Valid() && ch < CHANNELS && !Step(net, c, e).isClosed
    ensures var r := Step(net, c, e);
            && c.sent <= r.sent
            && (NoneLost(c, r, ch)
                <==> NoneDropped(c, r, ch)
                     && (e.MediaEvent? && e.ch == ch && Passes(c, ch, e.frame.frameType) ==> c.Matched(ch)))
  {
    hide OfferedPackets, Payloads, Flushed, FlushedTo, Appended, Unsent, Passes;
    if e.MediaEvent? {
      WholeFrames(net, c, e);
      var r, n := Step(net, c, e), |Payloads(e.codec, e.frame.data)|;
      if Passes(c, e.ch, e.frame.frameType) {
        assert forall k | |c.sent| <= k < |r.sent| :: r.sent[k].ch == e.ch && (r.sent[k].Astray() <==> !c.Matched(e.ch));
        assert |r.sent| == |c.sent| + n && r.sent[|c.sent|].ch == e.ch;
      }
    }
  }

  lemma {:induction false} DroppedSplit(c: Conn, d: Conn, r: Conn, ch: nat)
    requires c.sent <= d.sent <= r.sent
    ensures NoneDropped(c, r, ch) <==> NoneDropped(c, d, ch) && NoneDropped(d, r, ch)
  {
    assert forall k | 0 <= k < |d.sent| :: d.sent[k] == r.sent[k];
  }

  /** Over a run, packets of a channel are lost if and only if one is dropped, or one goes out while the
      descriptor of the channel is not one of the transport. */
  lemma {:induction false} RunLoses(net: Network, c: Conn, es: seq<Event>, ch: nat)
    requires c.Valid() && AllValid(es) && ch < CHANNELS && !Run(net, c, es).isClosed
    ensures var r := Run(net, c, es);
            NoneLost(c, r, ch) <==> NoneDropped(c, r, ch) && Matching(c, es, ch)
  {
    hide Step, Passes, NoneLost, NoneDropped, Matching, Conn.Matched, Asked;
    if es == [] {
      NoneYet(c, ch);
    } else {
      var init, e := es[..|es| - 1], es[|es| - 1];
      var d, r := Run(net, c, init), Run(net, c, es);
      StepGrows(net, d, e);
      RunGrows(net, c, init);
      RunLoses(net, c, init, ch);
      StepLoses(net, d, e, ch);
      NoneLostSplit(c, d, r, ch);
      DroppedSplit(c, d, r, ch);
      MatchingSnoc(c, es, ch);
      if e.MediaEvent? {
        AsAsked(net, c, init, e.ch, e.frame.frameType);
      }
    }
  }

  lemma {:induction false} NoneYet(c: Conn, ch: nat)
    requires c.Valid()
    ensures NoneLost(c, c, ch) && NoneDropped(c, c, ch) && Matching(c, [], ch)
  {
  }

  /** End to end, over any run of frames on both channels, requests and writable sockets that leaves
      the client open: a receiver of a channel it plays past the gate gets exactly the frames of
      that channel, in order, one timestamp a frame and the marker on exactly the last packet of
      each, if and only if none of them is ambiguous, the write queue dropped none of them, and each
      went out while the descriptor of the channel was one of the transport. */
  lemma {:induction false} EndToEnd(net: Network, c: Conn, ch: nat, codec: Codec, es: seq<Event>, r0: RtpReceiver)
    requires Ready(c, ch) && AllValid(es) && OneCodec(es, ch, codec) && !Run(net, c, es).isClosed
    requires InSync(Received(codec, r0, c.sent, ch), c, ch)
    ensures var r := Run(net, c, es);
            var before, after := Received(codec, r0, c.sent, ch), Received(codec, r0, r.sent, ch);
            (InSync(after, r, ch) && after.units == before.units + UnitsOn(es, ch))
            <==> !SomeAmbiguous(es, ch) && NoneDropped(c, r, ch) && Matching(c, es, ch)
  {
    hide Run, Received, Ambiguous, Unsent, Matching, NoneDropped;
    RunLoses(net, c, es, ch);
    if !SomeAmbiguous(es, ch) && NoneLost(c, Run(net, c, es), ch) {
      RunArrives(net, c, ch, codec, es, r0);
    } else {
      RunWeight(net, c, ch, codec, es, r0);
      UnitsWeightConcat(Received(codec, r0, c.sent, ch).units, UnitsOn(es, ch));
    }
  }

  /** So whoever keeps up gets everything, over any transport: a client none of whose sends fails or
      is blocked receives exactly the frames, if and only if none is ambiguous and each goes out while
      the descriptor of the channel is one of the transport. */
  lemma {:induction false} KeepingUp(net: Network, c: Conn, ch: nat, codec: Codec, es: seq<Event>, r0: RtpReceiver)
    requires Ready(c, ch) && AllValid(es) && OneCodec(es, ch, codec) && KeepsUpFrom(net, c)
    requires forall k | 0 <= k < |es| :: !es[k].TeardownEvent?
    requires InSync(Received(codec, r0, c.sent, ch), c, ch)
    ensures var r := Run(net, c, es);
            var before, after := Received(codec, r0, c.sent, ch), Received(codec, r0, r.sent, ch);
            && !r.isClosed
            && ((InSync(after, r, ch) && after.units == before.units + UnitsOn(es, ch))
                <==> !SomeAmbiguous(es, ch) && Matching(c, es, ch))
  {
    hide Run, Received, SomeAmbiguous, InSync, UnitsOn, Unsent, Matching;
    RunKeepsUp(net, c, es);
    EndToEnd(net, c, ch, codec, es, r0);
  }

  // -- From the bytes of an interleaved client ---------------------------------------------

  /** A receiver that is given packets. */
  function Fed(codec: Codec, r: RtpReceiver, rtps: seq<seq<byte>>): RtpReceiver {
    if rtps == [] then r else Accept(codec, Fed(codec, r, rtps[..|rtps| - 1]), rtps[|rtps| - 1])
  }

  /** The packets with one channel number. */
  function WithNumber(cs: seq<Chunk>, number: nat): seq<seq<byte>> {
    if cs == [] then []
    else
      var c := cs[|cs| - 1];
      WithNumber(cs[..|cs| - 1], number) + if c.Media? && c.channel == number then [c.rtp] else []
  }

  lemma {:induction false} WithNumberSnoc(cs: seq<Chunk>, c: Chunk, number: nat)
    ensures WithNumber(cs + [c], number)
      == WithNumber(cs, number) + if c.Media? && c.channel == number then [c.rtp] else []
  {
    assert (cs + [c])[..|cs + [c]| - 1] == cs;
  }

  lemma {:induction false} NumberedMedia(cs: seq<Chunk>, number: nat)
    ensures WithNumber(MediaOf(cs), number) == WithNumber(cs, number)
  {
    if cs != [] {
      var c, init := cs[|cs| - 1], cs[..|cs| - 1];
      NumberedMedia(init, number);
      WithNumberSnoc(MediaOf(init), c, number);
      assert MediaOf(init) + [] == MediaOf(init) && WithNumber(init, number) + [] == WithNumber(init, number);
    }
  }

  /** Channel `ch` has been interleaved throughout, under a number of its own. */
  ghost predicate OwnNumber(sent: seq<Sent>, ch: nat, number: nat) {
    forall k | 0 <= k < |sent| ::
      && (sent[k].ch == ch ==> sent[k].tcp && !sent[k].Astray())
      && (sent[k].tcp ==> (sent[k].ch == ch <==> sent[k].rtpChannel % 256 == number))
  }

  lemma {:induction false} FedIsReceived(codec: Codec, r: RtpReceiver, sent: seq<Sent>, ch: nat, number: nat)
    requires OwnNumber(sent, ch, number)
    ensures Fed(codec, r, WithNumber(Queued(sent), number)) == Received(codec, r, sent, ch)
  {
    hide Accept;
    if sent != [] {
      var init, s := sent[..|sent| - 1], sent[|sent| - 1];
      FedIsReceived(codec, r, init, ch, number);
      assert Queued(init) + [] == Queued(init);
      if Accepted(s) {
        WithNumberSnoc(Queued(init), Media(s.rtpChannel % 256, s.rtp), number);
        FedSnoc(codec, r, WithNumber(Queued(init), number), s.rtp);
        assert WithNumber(Queued(init), number) + [] == WithNumber(Queued(init), number);
      }
    }
  }

  lemma {:induction false} FedSnoc(codec: Codec, r: RtpReceiver, rtps: seq<seq<byte>>, rtp: seq<byte>)
    ensures Fed(codec, r, rtps + [rtp]) == Accept(codec, Fed(codec, r, rtps), rtp)
  {
    assert (rtps + [rtp])[..|rtps + [rtp]| - 1] == rtps;
  }

  /** When nothing is left in the queue, a receiver that takes the byte stream of an interleaved client
      apart and is given the packets with the number of a channel is where the receiver of that
      channel is; so all that is said of the latter holds of the bytes. */
  lemma {:induction false} FromTheBytes(framing: Framing, net: Network, ts: seq<nat>, ssrc: seq<nat>, es: seq<Event>,
      ch: nat, number: nat, codec: Codec, r0: RtpReceiver)
    requires New(ts, ssrc) && AllValid(es) && Framed(framing, es) && Untangled(Initial(ts, ssrc), es)
    requires var r := Run(net, Initial(ts, ssrc), es); r.socket.queue == [] && OwnNumber(r.sent, ch, number)
    ensures var r := Run(net, Initial(ts, ssrc), es);
            Fed(codec, r0, WithNumber(Deinterleave(framing, r.socket.wire).chunks, number))
              == Received(codec, r0, r.sent, ch)
  {
    hide Run, Initial, Deinterleave, Delimited, Fed, Received, WithNumber, Untangled, MediaOf, Queued, Streams;
    RunStreams(framing, net, ts, ssrc, es);
    var r := Run(net, Initial(ts, ssrc), es);
    StreamsSplit(framing, r);
    NumberedMedia(r.stream, number);
    FedIsReceived(codec, r0, r.sent, ch, number);
  }
}
