/** What the private frame transport delivers, from the frames given to sendToSocket to the
    buffers handed to the decoder. */
module FrameDelivery {
  import opened Bytes
  import opened FrameRecord
  import opened FrameSender
  import opened FrameReceiver

  // -- Deframing does not depend on how recv cuts the stream --------------------------------

  lemma {:induction false} HandleAllConcat(c: Core, a: seq<Packet>, b: seq<Packet>)
    requires c.Valid()
    ensures HandleAll(c, a + b) == HandleAll(HandleAll(c, a), b)
    decreases |a|
  {
    hide Handle;
    if a == [] {
      assert a + b == b;
    } else if c.Live() {
      assert (a + b)[1..] == a[1..] + b;
      HandleAllConcat(Handle(c, a[0]), a[1..], b);
    }
  }

  lemma {:induction false} FirstRecordOf(stream: seq<byte>, record: seq<byte>, rest: seq<byte>)
    requires |record| == RECORD && stream == record + rest
    ensures Packets(stream) == [Parse(record)] + Packets(rest) && Tail(stream) == Tail(rest)
  {
    hide Parsed, Parse;
    assert stream[..RECORD] == record && stream[RECORD..] == rest;
  }

  /** One recv leaves the handling of what is still to come unchanged. */
  lemma {:induction false} OneRecv(s: Receiver, piece: seq<byte>, rest: seq<byte>)
    requires s.Valid() && s.core.Live() && 1 <= |piece| <= RECORD
    ensures var s1 := OnRecv(s, piece);
            && HandleAll(s.core, Packets(s.save + (piece + rest))) == HandleAll(s1.core, Packets(s1.save + rest))
            && (s1.core.Live() ==> Tail(s.save + (piece + rest)) == Tail(s1.save + rest))
  {
    hide Handle, Parse, Packets, Tail;
    var s1 := OnRecv(s, piece);
    if |s.save| + |piece| < RECORD {
      assert s.save + (piece + rest) == s1.save + rest;
    } else {
      var index := RECORD - |s.save|;
      var record := s.save + piece[..index];
      assert s.save + (piece + rest) == record + (piece[index..] + rest);
      FirstRecordOf(s.save + (piece + rest), record, piece[index..] + rest);
    }
  }

  /** However the stream is cut, the receiver has handled exactly its complete records in order,
      and holds exactly the incomplete one. */
  lemma {:induction false} Deframing(s: Receiver, pieces: seq<seq<byte>>)
    requires s.Valid() && Pieces(pieces)
    ensures var stream := s.save + Flatten(pieces);
            && Run(s, pieces).core == HandleAll(s.core, Packets(stream))
            && (Run(s, pieces).core.Live() ==> Run(s, pieces).save == Tail(stream))
    decreases |pieces|
  {
    if pieces == [] {
      assert s.save + [] == s.save;
    } else if s.core.Live() {
      hide OnRecv, Packets, Tail;
      Deframing(OnRecv(s, pieces[0]), pieces[1..]);
      OneRecv(s, pieces[0], Flatten(pieces[1..]));
    }
  }

  lemma {:induction false} ChunkingIrrelevant(s: Receiver, a: seq<seq<byte>>, b: seq<seq<byte>>)
    requires s.Valid() && Pieces(a) && Pieces(b) && Flatten(a) == Flatten(b)
    ensures Run(s, a).core == Run(s, b).core
    ensures Run(s, a).core.Live() ==> Run(s, a) == Run(s, b)
  {
    Deframing(s, a);
    Deframing(s, b);
  }

  // -- One frame --------------------------------------------------------------------------

  /** A frame the receiver can hold and does not take for a bad one. */
  predicate Deliverable(f: Frame, boxSize: nat) {
    f.Valid() && f.pts > 0 && 0 < |f.data| <= boxSize
  }

  /** What the decoder is told of a frame: parameter sets alone do not end one. */
  function StreamOf(f: Frame): Vdec { Vdec(f.pts, |f.data|, f.frameType != 1) }

  function DeliveryOf(f: Frame): Delivery { Delivery(StreamOf(f), f.data) }

  function Done(f: Frame, k: nat): (n: nat)
    requires k <= Count(f)
    ensures n <= |f.data|
    ensures k == Count(f) ==> n == |f.data|
  {
    if k == 0 then 0 else PayloadEnd(f, k - 1)
  }

  /** `k` records of `f` have come by; `whole` tells whether none of them was lost. */
  ghost predicate Collecting(c: Core, f: Frame, k: nat, whole: bool) {
    && c.Valid() && c.Live() && Deliverable(f, |c.box|) && 1 <= k <= Count(f)
    && !c.needRestart && c.vdec == StreamOf(f)
    && (whole ==> c.totalLen == Done(f, k) && c.box[..c.totalLen] == f.data[..c.totalLen])
    && (!whole ==> c.totalLen < Done(f, k))
  }

  lemma {:induction false} FirstRecord(c: Core, f: Frame)
    requires c.Valid() && c.Live() && Deliverable(f, |c.box|)
    ensures var r := Handle(c, PacketAt(f, 0));
            && !Bad(PacketAt(f, 0).info) && Collecting(r, f, 1, true) && r.out == c.out + Pending(c)
            && |r.box| == |c.box| && r.trycount == c.trycount
  {
    var r := Handle(c, PacketAt(f, 0));
    assert r.box[..r.totalLen] == PacketAt(f, 0).payload == f.data[..Done(f, 1)];
  }

  lemma {:induction false} NextRecord(c: Core, f: Frame, k: nat, whole: bool)
    requires Collecting(c, f, k, whole) && k < Count(f)
    ensures var r := Handle(c, PacketAt(f, k));
            && !Bad(PacketAt(f, k).info) && Collecting(r, f, k + 1, whole) && r.out == c.out
            && |r.box| == |c.box| && r.trycount == c.trycount
  {
    var r := Handle(c, PacketAt(f, k));
    if whole {
      assert r.box[..r.totalLen] == c.box[..c.totalLen] + PacketAt(f, k).payload;
      assert f.data[..Done(f, k + 1)] == f.data[..Done(f, k)] + PacketAt(f, k).payload;
    }
  }

  lemma {:induction false} LostRecord(c: Core, f: Frame, k: nat, whole: bool, p: Packet)
    requires Collecting(c, f, k, whole) && k < Count(f) && Bad(p.info) && c.trycount <= 5
    ensures var r := Handle(c, p);
            && Collecting(r, f, k + 1, false) && r.out == c.out
            && |r.box| == |c.box| && r.trycount == c.trycount + 1
  {
  }

  // -- Frames with lost records -----------------------------------------------------------

  /** A frame as it was sent, and the packets that arrived for it. */
  datatype Reception = Reception(frame: Frame, got: seq<Packet>) {
    /** The start record arrived; each other record arrived or fails the header check. */
    predicate Valid() {
      && frame.Valid() && |got| == Count(frame) && got[0] == PacketAt(frame, 0)
      && forall k | 1 <= k < |got| :: got[k] == PacketAt(frame, k) || Bad(got[k].info)
    }

    predicate Whole() {
      frame.Valid() && got == FramePackets(frame)
    }
  }

  function BadCount(ps: seq<Packet>): nat {
    if ps == [] then 0 else (if Bad(ps[0].info) then 1 else 0) + BadCount(ps[1..])
  }

  lemma {:induction false} BadCountConcat(a: seq<Packet>, b: seq<Packet>)
    ensures BadCount(a + b) == BadCount(a) + BadCount(b)
  {
    if a == [] {
      assert a + b == b;
    } else {
      assert (a + b)[1..] == a[1..] + b;
      BadCountConcat(a[1..], b);
    }
  }

  /** From the k-th record on, nothing was lost. */
  predicate GenuineFrom(e: Reception, k: nat) {
    e.frame.Valid() && |e.got| == Count(e.frame) && forall j | k <= j < |e.got| :: e.got[j] == PacketAt(e.frame, j)
  }

  lemma {:induction false} RestOfFrame(c: Core, e: Reception, k: nat, whole: bool)
    requires e.Valid() && Collecting(c, e.frame, k, whole)
    requires c.trycount + BadCount(e.got[k..]) <= 6
    ensures var r := HandleAll(c, e.got[k..]);
            && Collecting(r, e.frame, Count(e.frame), whole && GenuineFrom(e, k))
            && r.out == c.out && |r.box| == |c.box| && r.trycount == c.trycount + BadCount(e.got[k..])
    decreases |e.got| - k
  {
    hide Handle, PacketAt;
    var f := e.frame;
    if k < |e.got| {
      var rest := e.got[k..];
      assert rest[1..] == e.got[k + 1..] && rest[0] == e.got[k];
      assert GenuineFrom(e, k) <==> e.got[k] == PacketAt(f, k) && GenuineFrom(e, k + 1);
      if e.got[k] == PacketAt(f, k) {
        NextRecord(c, f, k, whole);
        RestOfFrame(Handle(c, e.got[k]), e, k + 1, whole);
      } else {
        LostRecord(c, f, k, whole, e.got[k]);
        RestOfFrame(Handle(c, e.got[k]), e, k + 1, false);
      }
    }
  }

  lemma {:induction false} WholeIfGenuine(e: Reception)
    requires e.Valid()
    ensures e.Whole() <==> GenuineFrom(e, 1)
  {
    hide PacketAt;
    if GenuineFrom(e, 1) {
      assert forall j | 0 <= j < |e.got| :: e.got[j] == FramePackets(e.frame)[j];
    }
  }

  /** One frame hands over its predecessor, and is itself pending exactly when it is whole. */
  lemma {:induction false} OneFrame(c: Core, e: Reception)
    requires c.Valid() && c.Live() && e.Valid() && Deliverable(e.frame, |c.box|)
    requires c.trycount + BadCount(e.got) <= 6
    ensures var r := HandleAll(c, e.got);
            && r.Live() && |r.box| == |c.box| && r.trycount == c.trycount + BadCount(e.got)
            && r.out == c.out + Pending(c)
            && Pending(r) == if e.Whole() then [DeliveryOf(e.frame)] else []
  {
    hide Handle, PacketAt;
    FirstRecord(c, e.frame);
    var c1 := Handle(c, e.got[0]);
    RestOfFrame(c1, e, 1, true);
    WholeIfGenuine(e);
    var r := HandleAll(c1, e.got[1..]);
    assert e.frame.data[..|e.frame.data|] == e.frame.data;
  }

  predicate Receivable(es: seq<Reception>, boxSize: nat) {
    forall k | 0 <= k < |es| :: es[k].Valid() && Deliverable(es[k].frame, boxSize)
  }

  function Deliveries(es: seq<Reception>): seq<Delivery> {
    if es == [] then [] else
      var e := es[|es| - 1];
      Deliveries(es[..|es| - 1]) + if e.Whole() then [DeliveryOf(e.frame)] else []
  }

  function Arrived(es: seq<Reception>): seq<Packet> {
    if es == [] then [] else Arrived(es[..|es| - 1]) + es[|es| - 1].got
  }

  /** Loss: if every start record arrives and at most six records are rejected, the decoder has
      been handed exactly the whole frames, in order, up to the last frame begun, and that one
      is pending if it is whole. */
  lemma {:induction false} LossyDelivery(c: Core, es: seq<Reception>)
    requires c.Valid() && c.Live()
    requires Receivable(es, |c.box|)
    requires c.trycount + BadCount(Arrived(es)) <= 6
    ensures var r := HandleAll(c, Arrived(es));
            && r.Live() && |r.box| == |c.box| && r.trycount == c.trycount + BadCount(Arrived(es))
            && r.out + Pending(r) == c.out + Pending(c) + Deliveries(es)
            && (es != [] ==> r.out == c.out + Pending(c) + Deliveries(es[..|es| - 1]))
  {
    hide Handle, Pending;
    if es == [] {
      assert c.out + Pending(c) + [] == c.out + Pending(c);
    } else {
      var init, last := es[..|es| - 1], es[|es| - 1];
      BadCountConcat(Arrived(init), last.got);
      LossyDelivery(c, init);
      HandleAllConcat(c, Arrived(init), last.got);
      OneFrame(HandleAll(c, Arrived(init)), last);
    }
  }

  /** Resynchronisation: before the first start record everything is dropped. */
  lemma {:induction false} Resync(c: Core, junk: seq<Packet>)
    requires c.Valid() && c.Live() && c.needRestart
    requires forall p | p in junk :: Bad(p.info) || p.info.start != 1
    requires c.trycount + BadCount(junk) <= 6
    ensures HandleAll(c, junk) == c.(trycount := c.trycount + BadCount(junk))
    decreases |junk|
  {
    if junk != [] {
      Resync(Handle(c, junk[0]), junk[1..]);
    }
  }

  // -- End to end -------------------------------------------------------------------------

  ghost predicate AllDeliverable(fs: seq<Frame>, boxSize: nat)
    ensures AllDeliverable(fs, boxSize) ==> AllValid(fs)
  {
    forall k | 0 <= k < |fs| :: Deliverable(fs[k], boxSize)
  }

  function Intact(fs: seq<Frame>): (es: seq<Reception>)
    requires AllValid(fs)
    ensures |es| == |fs|
    ensures forall k | 0 <= k < |fs| :: es[k] == Reception(fs[k], FramePackets(fs[k]))
  {
    seq(|fs|, k requires 0 <= k < |fs| => Reception(fs[k], FramePackets(fs[k])))
  }

  function AllDeliveries(fs: seq<Frame>): (ds: seq<Delivery>)
    ensures |ds| == |fs| && forall k | 0 <= k < |fs| :: ds[k] == DeliveryOf(fs[k])
  {
    seq(|fs|, k requires 0 <= k < |fs| => DeliveryOf(fs[k]))
  }

  lemma {:induction false} FrameCarries(f: Frame)
    requires f.Valid()
    ensures Packets(FrameBytes(f, Count(f))) == FramePackets(f) && Tail(FrameBytes(f, Count(f))) == []
  {
    hide Packets, Wire;
    var ps := FramePackets(f);
    assert ps[..Count(f)] == ps;
    WireCarries(ps);
    WireIsAligned(ps);
  }

  lemma {:induction false} NoPackets()
    ensures Packets([]) == [] && Tail([]) == []
  {
    hide Parsed, Parse;
    assert Records([]) == [];
  }

  /** The packets of the byte stream are the packets of the frames. */
  lemma {:induction false} StreamCarries(fs: seq<Frame>)
    requires AllValid(fs)
    ensures Packets(StreamBytes(fs)) == Arrived(Intact(fs)) && Tail(StreamBytes(fs)) == []
  {
    hide Packets, Parsed, Tail, FrameBytes, FramePackets;
    if fs == [] {
      NoPackets();
    } else {
      var init, f := fs[..|fs| - 1], fs[|fs| - 1];
      StreamCarries(init);
      assert Intact(fs)[..|fs| - 1] == Intact(init);
      FrameCarries(f);
      PacketsConcat(StreamBytes(init), FrameBytes(f, Count(f)));
    }
  }

  lemma {:induction false} NoneBad(f: Frame, k: nat, boxSize: nat)
    requires Deliverable(f, boxSize) && k <= Count(f)
    ensures BadCount(FramePackets(f)[k..]) == 0
    decreases Count(f) - k
  {
    var ps := FramePackets(f);
    if k < Count(f) {
      NoneBad(f, k + 1, boxSize);
      assert ps[k..][1..] == ps[k + 1..] && ps[k..][0] == PacketAt(f, k);
    }
  }

  lemma {:induction false} IntactFrames(fs: seq<Frame>, boxSize: nat)
    requires AllDeliverable(fs, boxSize)
    ensures BadCount(Arrived(Intact(fs))) == 0
    ensures Deliveries(Intact(fs)) == AllDeliveries(fs)
  {
    if fs != [] {
      hide FramePackets;
      var init, f := fs[..|fs| - 1], fs[|fs| - 1];
      IntactFrames(init, boxSize);
      assert Intact(fs)[..|fs| - 1] == Intact(init);
      var ps := FramePackets(f);
      NoneBad(f, 0, boxSize);
      assert ps[0..] == ps;
      BadCountConcat(Arrived(Intact(init)), ps);
    }
  }

  /** A receiver at the start of a connection. */
  predicate Fresh(s: Receiver) {
    s.Valid() && s.core.Live() && s.core.needRestart && s.save == []
  }

  lemma {:induction false} IntactDelivery(c: Core, fs: seq<Frame>)
    requires c.Valid() && c.Live() && c.needRestart
    requires fs != [] && AllDeliverable(fs, |c.box|)
    ensures var r := HandleAll(c, Arrived(Intact(fs)));
            && r.Live() && r.out == c.out + AllDeliveries(fs[..|fs| - 1])
            && Pending(r) == [DeliveryOf(fs[|fs| - 1])]
  {
    hide HandleAll, Arrived, Deliveries, AllDeliveries, Packets, StreamBytes, DeliveryOf;
    var n := |fs| - 1;
    IntactFrames(fs, |c.box|);
    IntactFrames(fs[..n], |c.box|);
    assert Intact(fs)[..n] == Intact(fs[..n]);
    LossyDelivery(c, Intact(fs));
    var r := HandleAll(c, Arrived(Intact(fs)));
    assert c.out + Pending(c) == c.out;
    AllDeliveriesSnoc(fs);
    assert Pending(r) == (r.out + Pending(r))[|r.out|..];
  }

  /** End to end: however the stream is cut, the decoder is handed every frame but the last, in
      order, with its bytes, length, pts and end-of-frame flag, and the last one is pending. */
  lemma {:induction false} EndToEnd(s: Receiver, fs: seq<Frame>, pieces: seq<seq<byte>>)
    requires Fresh(s) && Pieces(pieces)
    requires fs != [] && AllDeliverable(fs, |s.core.box|)
    requires Flatten(pieces) == StreamBytes(fs)
    ensures var r := Run(s, pieces);
            && r.core.Live() && r.save == []
            && r.core.out == s.core.out + AllDeliveries(fs[..|fs| - 1])
            && Pending(r.core) == [DeliveryOf(fs[|fs| - 1])]
  {
    hide Run, HandleAll, Packets, Arrived, StreamBytes, Tail;
    Deframing(s, pieces);
    assert s.save + Flatten(pieces) == StreamBytes(fs);
    StreamCarries(fs);
    IntactDelivery(s.core, fs);
  }

  // -- From the encoder to the decoder ------------------------------------------------------

  /** What the decoder should be handed for what the encoder yields: the parameter sets before an I
      frame, and every frame. */
  function FromEncoder(us: seq<Encoded>): seq<Delivery> {
    if us == [] then []
    else
      var u := us[0];
      (if u.frameType == 1 then [Delivery(Vdec(u.pts, |u.head|, false), u.head)] else [])
      + [Delivery(Vdec(u.pts, |u.data|, true), u.data)] + FromEncoder(us[1..])
  }

  lemma {:induction false} DeliveriesConcat(a: seq<Frame>, b: seq<Frame>)
    ensures AllDeliveries(a + b) == AllDeliveries(a) + AllDeliveries(b)
  {
  }

  lemma {:induction false} RoundDeliveries(u: Encoded)
    requires u.Valid()
    ensures AllDeliveries(u.Frames())
      == (if u.frameType == 1 then [Delivery(Vdec(u.pts, |u.head|, false), u.head)] else [])
         + [Delivery(Vdec(u.pts, |u.data|, true), u.data)]
  {
  }

  lemma {:induction false} EncoderDeliveries(us: seq<Encoded>)
    requires AllEncoded(us)
    ensures AllDeliveries(AllFrames(us)) == FromEncoder(us)
  {
    hide Encoded.Frames, AllDeliveries;
    if us == [] {
      assert AllDeliveries([]) == [] by { NoDeliveries(); }
    } else {
      EncoderDeliveries(us[1..]);
      DeliveriesConcat(us[0].Frames(), AllFrames(us[1..]));
      RoundDeliveries(us[0]);
    }
  }

  lemma {:induction false} NoDeliveries()
    ensures AllDeliveries([]) == []
  {
  }

  /** A round whose frames the receiver can hold and does not take for bad ones. */
  predicate RoundFits(u: Encoded, boxSize: nat) {
    && u.Valid() && u.pts > 0 && 0 < |u.data| <= boxSize
    && (u.frameType == 1 ==> 0 < |u.head| <= boxSize)
  }

  lemma {:induction false} FramesDeliverable(us: seq<Encoded>, boxSize: nat)
    requires forall k | 0 <= k < |us| :: RoundFits(us[k], boxSize)
    ensures AllEncoded(us) && AllDeliverable(AllFrames(us), boxSize)
  {
    if us != [] {
      FramesDeliverable(us[1..], boxSize);
      assert AllFrames(us) == us[0].Frames() + AllFrames(us[1..]);
    }
  }

  /** From the encoder to the decoder: if the sends take their records whole, then however the bytes
      are cut the decoder is handed, or is to be handed next, exactly what the encoder has yielded
      from the first I frame on: parameter sets and frames, in order, byte for byte, with time stamp,
      length and end-of-frame flag. */
  lemma {:induction false} EncoderToDecoder(us: seq<Encoded>, net: Sends, from: nat, s: Receiver, pieces: seq<seq<byte>>)
    requires Fresh(s) && Pieces(pieces) && (forall k | 0 <= k < |us| :: RoundFits(us[k], |s.core.box|))
    requires FirstI(us) < |us| && AllEncoded(us)
    requires forall k | from <= k < from + |RecordsOf(Chosen(true, us))| :: net(k) >= RECORD
    requires Flatten(pieces) == Cut(net, from, RecordsOf(Chosen(true, us)))
    ensures var r := Run(s, pieces).core;
            && r.Live() && r.out + Pending(r) == s.core.out + FromEncoder(us[FirstI(us)..])
            && |Pending(r)| == 1
  {
    hide Run, Pending, RecordsOf, Chosen, Cut, AllDeliveries, FromEncoder, StreamBytes, DeliveryOf, AllFrames, FirstI,
         RoundFits;
    var sent := us[FirstI(us)..];
    var fs := Chosen(true, us);
    ChosenIs(us);
    FramesDeliverable(sent, |s.core.box|);
    SomeFrame(sent);
    WholeStream(net, from, fs);
    EndToEnd(s, fs, pieces);
    AllDeliveriesSnoc(fs);
    EncoderDeliveries(sent);
  }

  lemma {:induction false} SomeFrame(us: seq<Encoded>)
    requires AllEncoded(us) && us != []
    ensures AllFrames(us) != []
  {
  }

  lemma {:induction false} AllDeliveriesSnoc(fs: seq<Frame>)
    requires fs != []
    ensures AllDeliveries(fs) == AllDeliveries(fs[..|fs| - 1]) + [DeliveryOf(fs[|fs| - 1])]
  {
  }

  /** Joining in mid-stream and losing records, from bytes to buffers: what comes before the first
      start record is dropped, and then the decoder is handed exactly the whole frames before the
      last one begun. */
  lemma {:induction false} ResyncAndLoss(s: Receiver, pieces: seq<seq<byte>>, junk: seq<Packet>, es: seq<Reception>)
    requires Fresh(s) && Pieces(pieces)
    requires forall p | p in junk :: Bad(p.info) || p.info.start != 1
    requires es != [] && Receivable(es, |s.core.box|)
    requires s.core.trycount + BadCount(junk + Arrived(es)) <= 6
    ensures Packets(Flatten(pieces)) == junk + Arrived(es) ==>
      var r := Run(s, pieces);
      r.core.Live() && r.core.out == s.core.out + Deliveries(es[..|es| - 1])
  {
    hide Handle, Run, HandleAll, Packets, Deliveries, Tail;
    var c := s.core;
    assert s.save + Flatten(pieces) == Flatten(pieces);
    Deframing(s, pieces);
    BadCountConcat(junk, Arrived(es));
    HandleAllConcat(c, junk, Arrived(es));
    Resync(c, junk);
    LossyDelivery(HandleAll(c, junk), es);
    assert c.out + [] == c.out;
  }

  lemma {:induction false} RunConcat(s: Receiver, a: seq<seq<byte>>, b: seq<seq<byte>>)
    requires s.Valid() && Pieces(a) && Pieces(b)
    ensures Pieces(a + b) && Run(s, a + b) == Run(Run(s, a), b)
    decreases |a|
  {
    hide OnRecv;
    if a == [] {
      assert a + b == b;
    } else if s.core.Live() {
      assert (a + b)[1..] == a[1..] + b;
      RunConcat(OnRecv(s, a[0]), a[1..], b);
    }
  }

  /** Safety at every moment: what has been handed over is always an initial run of the frames. */
  lemma {:induction false} NothingButFrames(s: Receiver, fs: seq<Frame>, sofar: seq<seq<byte>>, later: seq<seq<byte>>)
    requires Fresh(s) && Pieces(sofar) && Pieces(later)
    requires fs != [] && AllDeliverable(fs, |s.core.box|)
    requires Flatten(sofar) + Flatten(later) == StreamBytes(fs)
    ensures s.core.out <= Run(s, sofar).core.out <= s.core.out + AllDeliveries(fs)
  {
    FlattenConcat(sofar, later);
    RunConcat(s, sofar, later);
    EndToEnd(s, fs, sofar + later);
  }

  /** The frames the header check rejects, whole: those without a time stamp or without bytes. */
  lemma {:induction false} RejectedFrames(f: Frame, k: nat)
    requires f.Valid() && k < Count(f)
    ensures Bad(PacketAt(f, k).info) <==> f.pts == 0 || f.data == []
  {
  }

  /** A reported disconnect drops the pending frame and leaves the receiver fresh once main
      reconnects. */
  lemma {:induction false} DisconnectIsClean(s: Receiver)
    requires s.Valid() && !s.core.overrun
    ensures var r := OnRecv(s, []);
            && !r.core.open && Fresh(Reconnected(r)) && r.core.out == s.core.out && Pending(r.core) == []
            && r.core.trycount == s.core.trycount && r.core.vdec == NO_STREAM && r.core.totalLen == 0
  {
  }

  // -- Frames the receiver rejects ----------------------------------------------------------

  /** A connection stays open exactly as long as it has seen no more than six bad records, with
      those of the connections before it since the last forced close; the seventh closes it. */
  lemma {:induction false} OpenIff(c: Core, ps: seq<Packet>)
    requires c.Valid() && c.Live()
    ensures !HandleAll(c, ps).overrun ==> (HandleAll(c, ps).open <==> c.trycount + BadCount(ps) <= 6)
    decreases |ps|
  {
    hide Pending, Spliced;
    if ps != [] {
      var d := Handle(c, ps[0]);
      if d.Live() {
        OpenIff(d, ps[1..]);
      }
    }
  }

  /** A frame of any kind that the receiver has room for. */
  predicate Sound(fs: seq<Frame>, boxSize: nat)
    ensures Sound(fs, boxSize) ==> AllValid(fs)
  {
    forall k | 0 <= k < |fs| :: fs[k].Valid() && |fs[k].data| <= boxSize
  }

  /** The frames with bytes and a time stamp. */
  function Good(fs: seq<Frame>): (gs: seq<Frame>) {
    if fs == [] then []
    else
      var f := fs[|fs| - 1];
      Good(fs[..|fs| - 1]) + if f.pts > 0 && f.data != [] then [f] else []
  }

  lemma {:induction false} Rejections(c: Core, ps: seq<Packet>)
    requires c.Valid() && c.Live() && c.trycount + BadCount(ps) <= 6
    requires forall k | 0 <= k < |ps| :: Bad(ps[k].info)
    ensures HandleAll(c, ps) == c.(trycount := c.trycount + BadCount(ps))
    decreases |ps|
  {
    hide Bad;
    if ps != [] {
      Rejections(Handle(c, ps[0]), ps[1..]);
    }
  }

  lemma {:induction false} BadFrame(c: Core, f: Frame)
    requires c.Valid() && c.Live() && f.Valid() && (f.pts == 0 || f.data == [])
    requires c.trycount + BadCount(FramePackets(f)) <= 6
    ensures HandleAll(c, FramePackets(f)) == c.(trycount := c.trycount + BadCount(FramePackets(f)))
  {
    forall k | 0 <= k < Count(f) ensures Bad(FramePackets(f)[k].info) {
      RejectedFrames(f, k);
    }
    Rejections(c, FramePackets(f));
  }

  /** One frame of any kind. */
  lemma {:induction false} AnyFrame(c: Core, f: Frame)
    requires c.Valid() && c.Live() && f.Valid() && |f.data| <= |c.box|
    requires c.trycount + BadCount(FramePackets(f)) <= 6
    ensures var r := HandleAll(c, FramePackets(f));
            && r.Live() && |r.box| == |c.box| && r.trycount == c.trycount + BadCount(FramePackets(f))
            && r.out + Pending(r)
                 == c.out + Pending(c) + if f.pts > 0 && f.data != [] then [DeliveryOf(f)] else []
  {
    hide Handle, FramePackets, DeliveryOf, Pending;
    if f.pts > 0 && f.data != [] {
      OneFrame(c, Reception(f, FramePackets(f)));
    } else {
      BadFrame(c, f);
      SamePending(c, c.trycount + BadCount(FramePackets(f)));
    }
  }

  lemma {:induction false} SamePending(c: Core, n: nat)
    requires c.Valid() && n <= 6
    ensures Pending(c.(trycount := n)) == Pending(c)
    ensures c.out + Pending(c) + [] == c.out + Pending(c)
  {
  }

  /** Frames of every kind, with at most six rejected records: exactly those with bytes and a time
      stamp are handed over or pending, in order. */
  lemma {:induction false} MixedDelivery(c: Core, fs: seq<Frame>)
    requires c.Valid() && c.Live() && Sound(fs, |c.box|)
    requires c.trycount + BadCount(Arrived(Intact(fs))) <= 6
    ensures var r := HandleAll(c, Arrived(Intact(fs)));
            && r.Live() && |r.box| == |c.box| && r.trycount == c.trycount + BadCount(Arrived(Intact(fs)))
            && r.out + Pending(r) == c.out + Pending(c) + AllDeliveries(Good(fs))
  {
    hide HandleAll, Handle, Pending, FramePackets, Bad, DeliveryOf, BadCount, AllDeliveries;
    if fs == [] {
      NoFrames(c);
    } else {
      var init, f := fs[..|fs| - 1], fs[|fs| - 1];
      assert Intact(fs)[..|fs| - 1] == Intact(init);
      var ps := FramePackets(f);
      BadCountConcat(Arrived(Intact(init)), ps);
      MixedDelivery(c, init);
      HandleAllConcat(c, Arrived(Intact(init)), ps);
      AnyFrame(HandleAll(c, Arrived(Intact(init))), f);
      OneMoreGood(fs);
    }
  }

  lemma {:induction false} NoFrames(c: Core)
    requires c.Valid()
    ensures HandleAll(c, []) == c && BadCount([]) == 0 && AllDeliveries([]) == []
    ensures c.out + Pending(c) + [] == c.out + Pending(c)
  {
  }

  lemma {:induction false} OneMoreGood(fs: seq<Frame>)
    requires fs != []
    ensures var f := fs[|fs| - 1];
            AllDeliveries(Good(fs))
              == AllDeliveries(Good(fs[..|fs| - 1])) + if f.pts > 0 && f.data != [] then [DeliveryOf(f)] else []
  {
  }

  /** End to end for every list of frames the receiver has room for, however the stream is cut: as
      long as at most six records are rejected, exactly the frames with bytes and a time stamp are
      handed over or pending. */
  lemma {:induction false} MixedEndToEnd(s: Receiver, fs: seq<Frame>, pieces: seq<seq<byte>>)
    requires Fresh(s) && Pieces(pieces) && Sound(fs, |s.core.box|)
    requires Flatten(pieces) == StreamBytes(fs)
    ensures var r := Run(s, pieces).core;
            && (!r.overrun ==> (r.open <==> s.core.trycount + BadCount(Arrived(Intact(fs))) <= 6))
            && (s.core.trycount + BadCount(Arrived(Intact(fs))) <= 6 ==>
                  r.open && !r.overrun && r.out + Pending(r) == s.core.out + AllDeliveries(Good(fs)))
  {
    hide Run, HandleAll, Packets, Arrived, StreamBytes, Tail, BadCount, Pending, Good;
    Deframing(s, pieces);
    assert s.save + Flatten(pieces) == StreamBytes(fs);
    StreamCarries(fs);
    OpenIff(s.core, Arrived(Intact(fs)));
    NothingPending(s);
    if s.core.trycount + BadCount(Arrived(Intact(fs))) <= 6 {
      MixedDelivery(s.core, fs);
    }
  }

  lemma {:induction false} NothingPending(s: Receiver)
    requires Fresh(s)
    ensures Pending(s.core) == [] && s.core.out + [] == s.core.out
  {
  }
}
