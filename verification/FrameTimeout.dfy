/** The select timeout in the client's main: it closes the socket and leaves everything else as it
    is, where a reported disconnect clears what belongs to the connection. */
module FrameTimeout {
  import opened Bytes
  import opened FrameRecord
  import opened FrameSender
  import opened FrameReceiver
  import opened FrameDelivery
  import opened FrameGroups

  /** The next connection after a timeout, and after a reported disconnect. */
  function AfterTimeout(s: Receiver): (r: Receiver)
    requires s.Valid()
    ensures r.Valid()
  {
    Reconnected(TimedOut(s))
  }

  function AfterDisconnect(s: Receiver): (r: Receiver)
    requires s.Valid()
    ensures r.Valid()
  {
    Reconnected(OnRecv(s, []))
  }

  /** The decoder cannot tell the two apart, whatever the next connection carries. */
  ghost predicate SameService(s: Receiver)
    requires s.Valid()
  {
    forall pieces | Pieces(pieces) :: SameOn(s, pieces)
  }

  ghost predicate SameOn(s: Receiver, pieces: seq<seq<byte>>)
    requires s.Valid() && Pieces(pieces)
  {
    var t, u := Run(AfterTimeout(s), pieces).core, Run(AfterDisconnect(s), pieces).core;
    t.out == u.out && t.overrun == u.overrun
  }

  // -- When it is clean -------------------------------------------------------------------

  /** Two receivers that wait for a start record, alike but for what the next one overwrites. */
  predicate Alike(c: Core, d: Core) {
    c == d || (c.needRestart && d.needRestart && c.(vdec := d.vdec, totalLen := d.totalLen) == d)
  }

  lemma {:induction false} StayAlike(c: Core, d: Core, ps: seq<Packet>)
    requires c.Valid() && d.Valid() && Alike(c, d)
    ensures Alike(HandleAll(c, ps), HandleAll(d, ps))
    decreases |ps|
  {
    hide Spliced;
    if ps != [] && c.Live() {
      StayAlike(Handle(c, ps[0]), Handle(d, ps[0]), ps[1..]);
    }
  }

  lemma {:induction false} CleanTimeout(s: Receiver, pieces: seq<seq<byte>>)
    requires s.Valid() && s.core.Live() && s.save == [] && s.core.needRestart && Pieces(pieces)
    ensures SameOn(s, pieces)
  {
    hide Run, HandleAll, Packets, Tail;
    var t, u := AfterTimeout(s), AfterDisconnect(s);
    Deframing(t, pieces);
    Deframing(u, pieces);
    StayAlike(t.core, u.core, Packets(Flatten(pieces)));
    assert [] + Flatten(pieces) == Flatten(pieces);
  }

  // -- A frame under way -------------------------------------------------------------------

  predicate AllPass(ps: seq<Packet>) {
    forall k | 0 <= k < |ps| :: !Bad(ps[k].info)
  }

  /** Continuation records with `n` bytes in all. */
  function Filler(n: nat): (ps: seq<Packet>)
    ensures AllSendable(ps) && AllContinue(ps) && AllPass(ps)
  {
    if n == 0 then []
    else
      var k := if n > CHUNK then CHUNK else n;
      [Packet(Info(0, 1, 0, 0, TWO_32 - 1, k, 0, 0), seq(k, _ => 0))] + Filler(n - k)
  }

  lemma {:induction false} FillerFills(c: Core, n: nat)
    requires c.Valid() && c.Live() && !c.needRestart && c.totalLen + n <= |c.box| < TWO_32
    ensures var r := HandleAll(c, Filler(n));
            && r.Live() && !r.needRestart && r.vdec == c.vdec && r.out == c.out && r.totalLen == c.totalLen + n
            && |r.box| == |c.box|
    decreases n
  {
    hide Spliced;
    if n > 0 {
      var k := if n > CHUNK then CHUNK else n;
      FillerFills(Handle(c, Filler(n)[0]), n - k);
      assert Filler(n)[1..] == Filler(n - k);
    }
  }

  /** A record that cuts what is there back to nothing. */
  const CUT := Packet(Info(0, 1, 0, 0, 1, 0, 0, 0), [])
  const START := Packet(Info(0, 1, 0, 0, 1, 0, 1, 0), [])
  const ONE := Packet(Info(0, 1, 0, 0, TWO_32 - 1, 1, 0, 0), [0])

  /** Records that complete the frame a receiver is collecting, or overrun its buffer. */
  function Completing(c: Core): (ps: seq<Packet>)
    requires c.Valid()
    ensures AllSendable(ps)
  {
    var total := if c.totalLen > c.vdec.len then 0 else c.totalLen;
    (if c.totalLen > c.vdec.len then [CUT] else [])
    + (if c.vdec.len <= |c.box| then Filler(c.vdec.len - total) + [START] else Filler(|c.box| - total) + [ONE])
  }

  lemma {:induction false} Completes(c: Core)
    requires c.Valid() && c.Live() && !c.needRestart && |c.box| < TWO_32
    ensures var r := HandleAll(c, Completing(c)); |r.out| > |c.out| || r.overrun
  {
    hide HandleAll, Filler, Spliced;
    var cut := if c.totalLen > c.vdec.len then [CUT] else [];
    CutToNothing(c);
    var d := HandleAll(c, cut);
    if c.vdec.len <= |c.box| {
      var n := c.vdec.len - d.totalLen;
      assert Completing(c) == cut + (Filler(n) + [START]);
      FillerFills(d, n);
      HandleAllConcat(c, cut, Filler(n) + [START]);
      HandleAllConcat(d, Filler(n), [START]);
      HandleOne(HandleAll(d, Filler(n)), START);
    } else {
      var n := |c.box| - d.totalLen;
      assert Completing(c) == cut + (Filler(n) + [ONE]);
      FillerFills(d, n);
      HandleAllConcat(c, cut, Filler(n) + [ONE]);
      HandleAllConcat(d, Filler(n), [ONE]);
      HandleOne(HandleAll(d, Filler(n)), ONE);
    }
  }

  lemma {:induction false} HandleOne(c: Core, p: Packet)
    requires c.Valid() && c.Live()
    ensures HandleAll(c, [p]) == Handle(c, p)
  {
    hide Handle;
    assert [p][1..] == [];
  }

  lemma {:induction false} CutToNothing(c: Core)
    requires c.Valid() && c.Live() && !c.needRestart
    ensures var d := HandleAll(c, if c.totalLen > c.vdec.len then [CUT] else []);
            && d.Live() && !d.needRestart && d.vdec == c.vdec && d.out == c.out && |d.box| == |c.box|
            && d.totalLen == if c.totalLen > c.vdec.len then 0 else c.totalLen
  {
    hide Spliced;
    if c.totalLen > c.vdec.len {
      HandleOne(c, CUT);
    }
  }

  lemma {:induction false} Skips(c: Core, ps: seq<Packet>)
    requires c.Valid() && c.Live() && c.needRestart && AllContinue(ps) && AllPass(ps)
    ensures HandleAll(c, ps) == c
    decreases |ps|
  {
    hide Bad;
    if ps != [] {
      Skips(c, ps[1..]);
    }
  }

  /** A receiver that waits for a start record hands nothing over for them. */
  lemma {:induction false} NothingCompletes(c: Core, d: Core)
    requires c.Valid() && d.Valid() && d.Live() && d.needRestart
    ensures var r := HandleAll(d, Completing(c)); r.out == d.out && !r.overrun
  {
    hide HandleAll, Filler, Spliced;
    var cut, total := if c.totalLen > c.vdec.len then [CUT] else [], if c.totalLen > c.vdec.len then 0 else c.totalLen;
    if c.vdec.len <= |c.box| {
      var before := cut + Filler(c.vdec.len - total);
      assert Completing(c) == before + [START];
      HandleAllConcat(d, before, [START]);
      Skips(d, before);
      HandleOne(d, START);
    } else {
      Skips(d, Completing(c));
    }
  }

  /** A list of records as the pieces recv returns. */
  lemma {:induction false} RecordPieces(stream: seq<byte>)
    requires Tail(stream) == []
    ensures Pieces(Records(stream)) && Flatten(Records(stream)) == stream
    decreases |stream|
  {
    if stream != [] {
      RecordPieces(stream[RECORD..]);
      assert stream == stream[..RECORD] + stream[RECORD..];
    }
  }

  lemma {:induction false} TornFrame(s: Receiver)
    requires s.Valid() && s.core.Live() && s.save == [] && !s.core.needRestart && |s.core.box| < TWO_32
    ensures !SameService(s)
  {
    hide Run, HandleAll, Packets, Records, Tail, Wire, Completing;
    var t, u, ps := AfterTimeout(s), AfterDisconnect(s), Completing(s.core);
    WireIsAligned(ps);
    RecordPieces(Wire(ps));
    WireCarries(ps);
    var pieces := Records(Wire(ps));
    assert [] + Flatten(pieces) == Flatten(pieces);
    Deframing(t, pieces);
    Deframing(u, pieces);
    assert t == s;
    Completes(t.core);
    NothingCompletes(s.core, u.core);
    assert !SameOn(s, pieces);
  }

  // -- What the server can send ----------------------------------------------------------

  lemma {:induction false} FirstFrame(a: Frame, ms: seq<Frame>)
    requires a.Valid() && AllValid(ms)
    ensures AllValid([a] + ms) && Arrived(Intact([a] + ms)) == FramePackets(a) + Arrived(Intact(ms))
    decreases |ms|
  {
    hide FramePackets;
    var fs := [a] + ms;
    var init := fs[..|fs| - 1];
    assert Intact(fs)[..|fs| - 1] == Intact(init);
    if ms == [] {
      assert [] + FramePackets(a) == FramePackets(a) + [];
    } else {
      assert init == [a] + ms[..|ms| - 1];
      assert Intact(ms)[..|ms| - 1] == Intact(ms[..|ms| - 1]);
      FirstFrame(a, ms[..|ms| - 1]);
    }
  }

  /** What a client that is accepted after the j-th record of `a` receives. */
  lemma {:induction false} LatePackets(a: Frame, ms: seq<Frame>, j: nat)
    requires a.Valid() && AllValid(ms) && j <= Count(a)
    ensures Packets(Flatten(FrameRecords(a)[j..] + RecordsOf(ms))) == FramePackets(a)[j..] + Arrived(Intact(ms))
  {
    hide FramePackets, FrameRecords, Arrived, Packets, StreamBytes, Flatten;
    FirstFrame(a, ms);
    RecordsOfConcat([a], ms);
    OneFrameRecords(a);
    StreamCarries([a] + ms);
    LateClient([a] + ms, j);
    assert RecordsOf([a] + ms)[j..] == FrameRecords(a)[j..] + RecordsOf(ms);
    assert (FramePackets(a) + Arrived(Intact(ms)))[j..] == FramePackets(a)[j..] + Arrived(Intact(ms));
  }

  /** The rest of a frame of which `k` records have come by, from the j-th on. */
  lemma {:induction false} TornRest(c: Core, a: Frame, k: nat, j: nat)
    requires Collecting(c, a, k, true) && k <= j <= Count(a)
    ensures var r := HandleAll(c, FramePackets(a)[j..]);
            && r.Live() && r.out == c.out && |r.box| == |c.box| && r.trycount == c.trycount
            && Pending(r) == if j == k then [DeliveryOf(a)] else []
  {
    hide PacketAt, HandleAll;
    var e := Reception(a, FramePackets(a));
    NoneBad(a, j, |c.box|);
    RestOfFrame(c, e, j, j == k);
    assert a.data[..|a.data|] == a.data;
  }

  /** A receiver that waits for a start record drops it. */
  lemma {:induction false} RestSkipped(c: Core, a: Frame, j: nat)
    requires c.Valid() && c.Live() && c.needRestart && Deliverable(a, |c.box|) && 1 <= j <= Count(a)
    ensures HandleAll(c, FramePackets(a)[j..]) == c
  {
    Skips(c, FramePackets(a)[j..]);
  }

  /** The connection is lost after `k` records of a frame, and the server goes on with its j-th record
      on the next connection, and with any frames after it: after a timeout the torn frame is handed
      over if and only if no record was lost in between, after a reported disconnect never; so the two
      services differ on this stream if and only if none was lost. */
  lemma {:induction false} LateService(s: Receiver, a: Frame, k: nat, j: nat, ms: seq<Frame>, pieces: seq<seq<byte>>)
    requires s.Valid() && s.save == [] && Collecting(s.core, a, k, true) && k <= j <= Count(a)
    requires ms != [] && AllDeliverable(ms, |s.core.box|)
    requires Pieces(pieces) && Flatten(pieces) == Flatten(FrameRecords(a)[j..] + RecordsOf(ms))
    ensures var rest := AllDeliveries(ms[..|ms| - 1]);
            && Run(AfterTimeout(s), pieces).core.out == s.core.out + (if j == k then [DeliveryOf(a)] else []) + rest
            && Run(AfterDisconnect(s), pieces).core.out == s.core.out + rest
    ensures Run(AfterTimeout(s), pieces).core.open && Run(AfterDisconnect(s), pieces).core.open
    ensures SameOn(s, pieces) <==> j != k
  {
    hide Run, HandleAll, Packets, Tail, Flatten, FramePackets, Arrived, AllDeliveries, RecordsOf, Pending, Handle,
         Deliveries, DeliveryOf;
    var t, u, all := AfterTimeout(s), AfterDisconnect(s), FramePackets(a)[j..];
    assert t == s;
    LatePackets(a, ms, j);
    assert [] + Flatten(pieces) == Flatten(pieces);
    Deframing(t, pieces);
    Deframing(u, pieces);
    HandleAllConcat(t.core, all, Arrived(Intact(ms)));
    HandleAllConcat(u.core, all, Arrived(Intact(ms)));
    TornRest(t.core, a, k, j);
    RestSkipped(u.core, a, j);
    FramesAfter(HandleAll(t.core, all), ms);
    FramesAfter(u.core, ms);
    NonePending(u.core);
  }

  /** The same of the rounds of main: the select timeout, or the recv that reports the disconnect, and
      then the pieces of the next connection. */
  lemma {:induction false} LateServed(s: Receiver, a: Frame, k: nat, j: nat, ms: seq<Frame>, pieces: seq<seq<byte>>)
    requires s.Valid() && s.save == [] && Collecting(s.core, a, k, true) && k <= j <= Count(a)
    requires ms != [] && AllDeliverable(ms, |s.core.box|) && pieces != []
    requires Pieces(pieces) && Flatten(pieces) == Flatten(FrameRecords(a)[j..] + RecordsOf(ms))
    ensures Rounds([Timeout] + AsRounds(pieces)) && Rounds([Readable([])] + AsRounds(pieces))
    ensures var rest := AllDeliveries(ms[..|ms| - 1]);
            && Served(s, [Timeout] + AsRounds(pieces)).core.out
                 == s.core.out + (if j == k then [DeliveryOf(a)] else []) + rest
            && Served(s, [Readable([])] + AsRounds(pieces)).core.out == s.core.out + rest
  {
    hide Run, AllDeliveries, RecordsOf, DeliveryOf, Flatten, FrameRecords, Served, AsRounds;
    LateService(s, a, k, j, ms, pieces);
    TimeoutServed(s, pieces);
    DisconnectServed(s, pieces);
  }

  /** The rounds of main are the two services. */
  lemma {:induction false} TimeoutServed(s: Receiver, pieces: seq<seq<byte>>)
    requires s.Valid() && !s.core.overrun && Pieces(pieces) && pieces != []
    requires Run(AfterTimeout(s), pieces).core.open
    ensures Rounds([Timeout] + AsRounds(pieces))
    ensures Served(s, [Timeout] + AsRounds(pieces)) == Run(AfterTimeout(s), pieces)
  {
    hide Run, AsRounds, Served;
    TimeoutRound(s);
    ServedAgain(TimedOut(s), pieces);
    ServedConcat(s, [Timeout], AsRounds(pieces));
  }

  lemma {:induction false} DisconnectServed(s: Receiver, pieces: seq<seq<byte>>)
    requires s.Valid() && s.core.Live() && Pieces(pieces) && pieces != []
    requires Run(AfterDisconnect(s), pieces).core.open
    ensures Rounds([Readable([])] + AsRounds(pieces))
    ensures Served(s, [Readable([])] + AsRounds(pieces)) == Run(AfterDisconnect(s), pieces)
  {
    hide Run, AsRounds;
    var gone := OnRecv(s, []);
    assert Reconnected(s) == s;
    assert Served(s, [Readable([])]) == gone by { assert [Readable([])][1..] == []; }
    ServedAgain(gone, pieces);
    ServedConcat(s, [Readable([])], AsRounds(pieces));
  }

  /** After the seventh bad record main connects again, and however the bytes are cut the decoder gets
      what it would get on a first connection: nothing of the frame under way before. */
  lemma {:induction false} ForcedCloseServed(s: Receiver, piece: seq<byte>, fs: seq<Frame>, pieces: seq<seq<byte>>)
    requires s.Valid() && s.core.Live() && s.core.trycount == 6
    requires FrameReceiver.Completes(s, piece) && Bad(Parse(RecordOf(s, piece)).info)
    requires fs != [] && AllDeliverable(fs, |s.core.box|)
    requires Pieces(pieces) && pieces != [] && Flatten(pieces) == StreamBytes(fs)
    ensures Rounds([Readable(piece)] + AsRounds(pieces))
    ensures var r := Served(s, [Readable(piece)] + AsRounds(pieces)).core;
            && r.out == s.core.out + AllDeliveries(fs[..|fs| - 1]) && Pending(r) == [DeliveryOf(fs[|fs| - 1])]
            && r.Live()
  {
    hide Run, AsRounds, OnRecv, Parse, Bad, RecordOf, StreamBytes, AllDeliveries, DeliveryOf, Flatten, Pending;
    var closed := OnRecv(s, piece);
    BadRecord(s, piece);
    assert Reconnected(s) == s;
    assert Served(s, [Readable(piece)]) == closed by { assert [Readable(piece)][1..] == []; }
    EndToEnd(Reconnected(closed), fs, pieces);
    ServedAgain(closed, pieces);
    ServedConcat(s, [Readable(piece)], AsRounds(pieces));
  }

  lemma {:induction false} NonePending(c: Core)
    requires c.Valid() && c.needRestart
    ensures Pending(c) == [] && c.out + [] == c.out
  {
  }

  lemma {:induction false} FramesAfter(c: Core, ms: seq<Frame>)
    requires c.Valid() && c.Live() && ms != [] && AllDeliverable(ms, |c.box|)
    ensures var r := HandleAll(c, Arrived(Intact(ms)));
            r.Live() && r.out == c.out + Pending(c) + AllDeliveries(ms[..|ms| - 1])
  {
    hide HandleAll, Arrived, Deliveries, AllDeliveries, Pending, DeliveryOf;
    IntactFrames(ms, |c.box|);
    IntactFrames(ms[..|ms| - 1], |c.box|);
    assert Intact(ms)[..|ms| - 1] == Intact(ms[..|ms| - 1]);
    LossyDelivery(c, Intact(ms));
  }

  // -- Bytes left over ---------------------------------------------------------------------

  /** A time stamp that is neither of two. */
  function Other(a: nat, b: nat): (p: nat)
    ensures p != a && p != b && TWO_64 - 3 <= p < TWO_64
  {
    if a != TWO_64 - 1 && b != TWO_64 - 1 then TWO_64 - 1
    else if a != TWO_64 - 2 && b != TWO_64 - 2 then TWO_64 - 2
    else TWO_64 - 3
  }

  lemma {:induction false} HighBytes(v: nat, n: nat)
    requires n > 0 && Pow256(n) - 3 <= v < Pow256(n)
    ensures forall k | 0 <= k < n :: LittleEndian(v, n)[k] >= 0xFD
  {
    if n > 1 {
      assert Pow256(n) == 256 * Pow256(n - 1);
      assert v / 256 == Pow256(n - 1) - 1;
      HighBytes(v / 256, n - 1);
    } else {
      assert Pow256(1) == 256 * Pow256(0);
    }
  }

  /** A record with a high byte in its end-of-frame field is a bad one. */
  lemma {:induction false} HighIsBad(r: seq<byte>, k: nat)
    requires |r| == RECORD && 12 <= k < 16 && r[k] >= 0xFD
    ensures Bad(Parse(r).info)
  {
    var b := r[12..16];
    assert b[k - 12] == r[k];
    FourBytes(b);
  }

  /** What can be handed over for two records. */
  lemma {:induction false} TwoRecords(c: Core, p: Packet, q: Packet, pts: nat)
    requires c.Valid() && c.Live() && c.vdec.pts != pts && (Bad(p.info) || p.info.pts != pts)
    ensures var r := HandleAll(c, [p, q]);
            forall k | |c.out| <= k < |r.out| :: r.out[k].stream.pts != pts
  {
    hide Bad, Spliced;
    var d := Handle(c, p);
    assert [p, q][1..] == [q];
    if d.Live() {
      HandleOne(d, q);
      assert d.needRestart || d.vdec == c.vdec || (!Bad(p.info) && d.vdec.pts == p.info.pts);
    }
  }

  function Probe(pts: nat): seq<Frame> {
    [Frame([7], 0, pts), Frame([7], 0, 1)]
  }

  /** Two frames of one record each. */
  lemma {:induction false} ProbeBytes(pts: nat)
    requires 0 < pts < TWO_64
    ensures AllValid(Probe(pts)) && |StreamBytes(Probe(pts))| == 2 * RECORD
    ensures StreamBytes(Probe(pts))[4..12] == LittleEndian(pts, 8)
  {
    hide LittleEndian, LastRecord, Wire;
    var f, g := Frame([7], 0, pts), Frame([7], 0, 1);
    var fs := [f, g];
    FrameBytesStart(f);
    FrameBytesStart(g);
    FrameBytesStep(f, 0);
    FrameBytesStep(g, 0);
    assert fs[..1] == [f] && [f][..0] == [];
    assert StreamBytes([]) == [];
    assert StreamBytes([f]) == [] + ([] + BufferAfter(f, 1));
    assert StreamBytes(fs) == StreamBytes([f]) + FrameBytes(g, 1);
    assert BufferAfter(f, 1)[4..12] == LittleEndian(pts, 8);
  }

  lemma {:induction false} LeftOver(s: Receiver)
    requires s.Valid() && s.core.Live() && s.save != []
    ensures !SameService(s)
  {
    hide Run, HandleAll, Packets, Records, Tail, StreamBytes, LittleEndian, FromLittleEndian, Parse;
    var t, u, n := AfterTimeout(s), AfterDisconnect(s), |s.save|;
    var pts := Other(s.core.vdec.pts, if n >= 12 then FromLittleEndian(s.save[4..12]) else 0);
    var fs := Probe(pts);
    ProbeBytes(pts);
    var stream := StreamBytes(fs);
    StreamCarries(fs);
    RecordPieces(stream);
    var pieces := Records(stream);
    EndToEnd(u, fs, pieces);
    assert t == s;
    Deframing(t, pieces);
    var all := s.save + stream;
    TwoPackets(all);
    FirstIsOther(s.save, stream, pts);
    TwoRecords(t.core, Parse(all[..RECORD]), Parse(all[RECORD..2 * RECORD]), pts);
    var a, b := Run(t, pieces).core.out, Run(u, pieces).core.out;
    assert fs[..1] == [Frame([7], 0, pts)];
    assert b == s.core.out + [DeliveryOf(fs[0])];
    assert b[|s.core.out|].stream.pts == pts;
    assert !SameOn(s, pieces);
  }

  lemma {:induction false} TwoPackets(all: seq<byte>)
    requires 2 * RECORD <= |all| < 3 * RECORD
    ensures Packets(all) == [Parse(all[..RECORD]), Parse(all[RECORD..2 * RECORD])]
  {
    hide Parse;
    assert all[RECORD..][..RECORD] == all[RECORD..2 * RECORD];
    assert Records(all) == [all[..RECORD]] + ([all[RECORD..2 * RECORD]] + Records(all[RECORD..][RECORD..]));
  }

  /** The first record after a timeout is not the one that was sent. */
  lemma {:induction false} FirstIsOther(save: seq<byte>, stream: seq<byte>, pts: nat)
    requires 0 < |save| < RECORD <= |stream| && TWO_64 - 3 <= pts < TWO_64
    requires stream[4..12] == LittleEndian(pts, 8)
    requires |save| >= 12 ==> pts != FromLittleEndian(save[4..12])
    ensures var p := Parse((save + stream)[..RECORD]); Bad(p.info) || p.info.pts != pts
  {
    hide Bad;
    var r, n := (save + stream)[..RECORD], |save|;
    if n >= 12 {
      assert r[4..12] == save[4..12];
    } else {
      var k := if n <= 8 then 12 - n else 4;
      Widths();
      HighBytes(pts, 8);
      assert stream[k] == stream[4..12][k - 4];
      assert r[n + k] == stream[k];
      HighIsBad(r, n + k);
    }
  }

  /** The next connection is served as after a reported disconnect, whatever it carries, if and only
      if no bytes are left over and the receiver was waiting for a start record. */
  lemma {:induction false} TimeoutIsClean(s: Receiver)
    requires s.Valid() && s.core.Live() && |s.core.box| < TWO_32
    ensures SameService(s) <==> s.save == [] && s.core.needRestart
  {
    hide SameOn, Run;
    if s.save != [] {
      LeftOver(s);
    } else if !s.core.needRestart {
      TornFrame(s);
    } else {
      forall pieces | Pieces(pieces) ensures SameOn(s, pieces) {
        CleanTimeout(s, pieces);
      }
    }
  }
}
