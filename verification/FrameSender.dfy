/** The sending side of the private frame transport: sendToSocket cuts a frame into records. */
module FrameSender {
  import opened Bytes
  import opened FrameRecord

  /** The arguments of one call of sendToSocket. */
  datatype Frame = Frame(data: seq<byte>, frameType: int, pts: nat) {
    predicate Valid() {
      |data| < TWO_32 && Int32(frameType) && pts < TWO_64
    }

    function EndOfFrame(): int { if frameType == 1 then 0 else 1 }
  }

  // -- What is sent -----------------------------------------------------------------------

  /** Even an empty frame takes one record: the loop tests its condition last. */
  function Count(f: Frame): (n: nat)
    ensures n > 0
  {
    if f.data == [] then 1 else (|f.data| + CHUNK - 1) / CHUNK
  }

  function PayloadEnd(f: Frame, k: nat): (e: nat)
    requires k < Count(f)
    ensures CHUNK * k <= e <= |f.data| && e <= CHUNK * (k + 1)
    ensures e == if k == Count(f) - 1 then |f.data| else CHUNK * (k + 1)
  {
    if CHUNK * (k + 1) < |f.data| then CHUNK * (k + 1) else |f.data|
  }

  /** The k-th packet of a frame; only the first is a start record. */
  function PacketAt(f: Frame, k: nat): (p: Packet)
    requires f.Valid() && k < Count(f)
    ensures p.Sendable()
  {
    var payload := f.data[CHUNK * k..PayloadEnd(f, k)];
    Packet(Info(f.frameType, f.pts, f.EndOfFrame(), 0, |f.data|, |payload|, if k == 0 then 1 else 0, 0), payload)
  }

  function FramePackets(f: Frame): (ps: seq<Packet>)
    requires f.Valid()
    ensures |ps| == Count(f) && forall k | 0 <= k < |ps| :: ps[k] == PacketAt(f, k)
    ensures forall k | 0 <= k < |ps| :: ps[k].Sendable()
  {
    seq(Count(f), k requires 0 <= k < Count(f) => PacketAt(f, k))
  }

  /** What the packets of a frame say: each repeats its type, time stamp and length and whether it is
      one of the encoder's parameter sets; the first alone is a start record; and the payloads, none
      longer than 1000 bytes and none but that of an empty frame empty, make up the frame. */
  lemma {:induction false} PacketsTell(f: Frame)
    requires f.Valid()
    ensures var ps := FramePackets(f);
            && (forall k | 0 <= k < |ps| ::
                  && ps[k].info == Info(f.frameType, f.pts, if f.frameType == 1 then 0 else 1, 0, |f.data|,
                                        |ps[k].payload|, if k == 0 then 1 else 0, 0)
                  && |ps[k].payload| <= 1000 && (k + 1 < |ps| ==> |ps[k].payload| == 1000)
                  && (f.data != [] ==> ps[k].payload != []))
            && PayloadsOf(ps) == f.data
  {
    var ps := FramePackets(f);
    assert ps[..|ps|] == ps;
    FirstPayloads(f, |ps|);
    assert f.data[..|f.data|] == f.data;
  }

  function PayloadsOf(ps: seq<Packet>): seq<byte> {
    if ps == [] then [] else PayloadsOf(ps[..|ps| - 1]) + ps[|ps| - 1].payload
  }

  lemma {:induction false} FirstPayloads(f: Frame, k: nat)
    requires f.Valid() && k <= Count(f)
    ensures PayloadsOf(FramePackets(f)[..k]) == f.data[..if k == 0 then 0 else PayloadEnd(f, k - 1)]
  {
    var ps := FramePackets(f);
    if k > 0 {
      FirstPayloads(f, k - 1);
      assert ps[..k][..k - 1] == ps[..k - 1];
      assert ps[k - 1].payload == f.data[CHUNK * (k - 1)..PayloadEnd(f, k - 1)];
    }
  }

  // -- How it is laid out on the wire -----------------------------------------------------

  predicate AllSendable(ps: seq<Packet>) {
    forall k | 0 <= k < |ps| :: ps[k].Sendable()
  }

  /** The send buffer after sending `ps`: the padding of a record is left from the one before. */
  function LastRecord(ps: seq<Packet>): (r: seq<byte>)
    requires AllSendable(ps)
    ensures |r| == RECORD
  {
    if ps == [] then seq(RECORD, _ => 0) else Record(ps[|ps| - 1], LastRecord(ps[..|ps| - 1]))
  }

  function Wire(ps: seq<Packet>): seq<byte>
    requires AllSendable(ps)
  {
    if ps == [] then [] else Wire(ps[..|ps| - 1]) + LastRecord(ps)
  }

  /** The bytes of the first `k` records of a frame, and the send buffer after them. */
  function FrameBytes(f: Frame, k: nat): seq<byte>
    requires f.Valid() && k <= Count(f)
  {
    Wire(FramePackets(f)[..k])
  }

  function BufferAfter(f: Frame, k: nat): (r: seq<byte>)
    requires f.Valid() && k <= Count(f)
    ensures |r| == RECORD
  {
    LastRecord(FramePackets(f)[..k])
  }

  lemma {:induction false} FrameBytesStart(f: Frame)
    requires f.Valid()
    ensures BufferAfter(f, 0) == seq(RECORD, _ => 0) && FrameBytes(f, 0) == []
  {
  }

  lemma {:induction false} FrameBytesStep(f: Frame, k: nat)
    requires f.Valid() && k < Count(f)
    ensures BufferAfter(f, k + 1) == Record(PacketAt(f, k), BufferAfter(f, k))
    ensures FrameBytes(f, k + 1) == FrameBytes(f, k) + BufferAfter(f, k + 1)
  {
    hide Record;
    var ps := FramePackets(f);
    assert ps[..k + 1][..k] == ps[..k];
  }

  lemma {:induction false} WireIsAligned(ps: seq<Packet>)
    requires AllSendable(ps)
    ensures Tail(Wire(ps)) == []
  {
    hide Record, Parse, Parsed, Packets;
    if ps != [] {
      var init := ps[..|ps| - 1];
      WireIsAligned(init);
      OneRecord(ps[|ps| - 1], LastRecord(init));
      PacketsConcat(Wire(init), LastRecord(ps));
    }
  }

  /** The stale padding does not matter: the wire carries exactly the packets. */
  lemma {:induction false} WireCarries(ps: seq<Packet>)
    requires AllSendable(ps)
    ensures Packets(Wire(ps)) == ps
  {
    hide Record, Parse, Parsed;
    if ps != [] {
      var init := ps[..|ps| - 1];
      WireCarries(init);
      WireIsAligned(init);
      OneRecord(ps[|ps| - 1], LastRecord(init));
      PacketsConcat(Wire(init), LastRecord(ps));
    }
  }

  lemma {:induction false} OneRecord(p: Packet, buf: seq<byte>)
    requires p.Sendable() && |buf| == RECORD
    ensures Packets(Record(p, buf)) == [p] && Tail(Record(p, buf)) == []
  {
    hide Header, ParseHeader, Parsed;
    RecordRoundTrip(p, buf);
    var r := Record(p, buf);
    assert r[..RECORD] == r && r[RECORD..] == [];
    assert Records(r) == [r];
  }

  lemma {:induction false} PacketIs(f: Frame, k: nat, data: nat, offset: nat)
    requires f.Valid() && k < Count(f)
    requires data == CHUNK * k <= |f.data|
    requires offset == if |f.data| - data > CHUNK then CHUNK else |f.data| - data
    ensures data + offset <= |f.data|
    ensures PacketAt(f, k)
      == Packet(Info(f.frameType, f.pts, f.EndOfFrame(), 0, |f.data|, offset, if k == 0 then 1 else 0, 0),
                f.data[data..data + offset])
    ensures k + 1 == Count(f) <==> data + offset == |f.data|
    ensures k + 1 < Count(f) ==> offset == CHUNK
  {
  }

  predicate AllValid(fs: seq<Frame>) {
    forall k | 0 <= k < |fs| :: fs[k].Valid()
  }

  /** What sendToSocket puts on the wire for a list of frames when no send fails. */
  function StreamBytes(fs: seq<Frame>): seq<byte>
    requires AllValid(fs)
  {
    if fs == [] then [] else
      var f := fs[|fs| - 1];
      StreamBytes(fs[..|fs| - 1]) + FrameBytes(f, Count(f))
  }

  /** What the encoder yields in one round; `head` is the parameter sets that go before an I frame. */
  datatype Encoded = Encoded(data: seq<byte>, pts: nat, frameType: int, head: seq<byte>) {
    predicate Valid() {
      |data| < TWO_32 && |head| < TWO_32 && pts < TWO_64
    }

    function Frames(): (fs: seq<Frame>)
      requires Valid()
      ensures AllValid(fs)
    {
      (if frameType == 1 then [Frame(head, 1, pts)] else []) + [Frame(data, 0, pts)]
    }
  }

  predicate AllEncoded(us: seq<Encoded>) {
    forall k | 0 <= k < |us| :: us[k].Valid()
  }

  /** The frames SendStream_1 sends on one connection: none before the first I frame, all after it. */
  function Chosen(isFirst: bool, us: seq<Encoded>): (fs: seq<Frame>)
    requires AllEncoded(us)
    ensures AllValid(fs)
    ensures isFirst && fs != [] ==> fs[0].frameType == 1
  {
    if us == [] then []
    else if isFirst && us[0].frameType != 1 then Chosen(true, us[1..])
    else us[0].Frames() + Chosen(false, us[1..])
  }

  /** Where the first I frame is. */
  function FirstI(us: seq<Encoded>): (n: nat)
    ensures n <= |us| && (n < |us| ==> us[n].frameType == 1)
    ensures forall k | 0 <= k < n :: us[k].frameType != 1
  {
    if us == [] || us[0].frameType == 1 then 0 else 1 + FirstI(us[1..])
  }

  /** Every frame of every round, each I frame after its parameter sets. */
  function AllFrames(us: seq<Encoded>): (fs: seq<Frame>)
    requires AllEncoded(us)
    ensures AllValid(fs)
  {
    if us == [] then [] else us[0].Frames() + AllFrames(us[1..])
  }

  /** On one connection exactly the rounds from the first I frame on are sent. */
  lemma {:induction false} ChosenIs(us: seq<Encoded>)
    requires AllEncoded(us)
    ensures Chosen(true, us) == AllFrames(us[FirstI(us)..])
    ensures Chosen(false, us) == AllFrames(us)
  {
    hide Encoded.Frames;
    if us != [] {
      ChosenIs(us[1..]);
      if us[0].frameType == 1 {
        assert us[0..] == us;
      } else {
        assert us[1..][FirstI(us[1..])..] == us[FirstI(us)..];
      }
    }
  }

  /** How many I frames there are. */
  function IFrames(us: seq<Encoded>): nat {
    if us == [] then 0 else IFrames(us[..|us| - 1]) + if us[|us| - 1].frameType == 1 then 1 else 0
  }

  /** Where the frame of the k-th round is among all frames: behind those of the rounds before it and
      their parameter sets, and its own. */
  lemma {:induction false} FrameOfRound(us: seq<Encoded>, k: nat)
    requires AllEncoded(us) && k < |us|
    ensures var fs, u, at := AllFrames(us), us[k], k + IFrames(us[..k + 1]);
            && |fs| == |us| + IFrames(us) && at < |fs| && fs[at] == Frame(u.data, 0, u.pts)
            && (u.frameType == 1 ==> at > 0 && fs[at - 1] == Frame(u.head, 1, u.pts))
  {
    hide IFrames, AllFrames;
    FramesCount(us);
    FramesCount(us[..k]);
    FramesSplit(us[..k], us[k..]);
    assert us == us[..k] + us[k..] && us[..k + 1][..k] == us[..k] && us[..k + 1][k] == us[k];
    FirstRound(us[k..]);
    IFramesSnoc(us[..k], us[k]);
    assert us[..k] + [us[k]] == us[..k + 1];
  }

  lemma {:induction false} IFramesSnoc(us: seq<Encoded>, u: Encoded)
    ensures IFrames(us + [u]) == IFrames(us) + if u.frameType == 1 then 1 else 0
  {
    assert (us + [u])[..|us + [u]| - 1] == us;
  }

  lemma {:induction false} FirstRound(us: seq<Encoded>)
    requires AllEncoded(us) && us != []
    ensures var fs, u := AllFrames(us), us[0];
            if u.frameType == 1
            then |fs| >= 2 && fs[0] == Frame(u.head, 1, u.pts) && fs[1] == Frame(u.data, 0, u.pts)
            else |fs| >= 1 && fs[0] == Frame(u.data, 0, u.pts)
  {
  }

  lemma {:induction false} FramesSplit(a: seq<Encoded>, b: seq<Encoded>)
    requires AllEncoded(a) && AllEncoded(b)
    ensures AllFrames(a + b) == AllFrames(a) + AllFrames(b)
  {
    hide Encoded.Frames;
    if a == [] {
      assert a + b == b;
    } else {
      assert (a + b)[1..] == a[1..] + b;
      FramesSplit(a[1..], b);
    }
  }

  lemma {:induction false} FramesCount(us: seq<Encoded>)
    requires AllEncoded(us)
    ensures |AllFrames(us)| == |us| + IFrames(us)
  {
    if us != [] {
      var init, u := us[..|us| - 1], us[|us| - 1];
      FramesCount(init);
      assert us == init + [u];
      FramesSplit(init, [u]);
      assert AllFrames([u][1..]) == [];
    }
  }

  lemma {:induction false} ChosenEnds(us: seq<Encoded>)
    requires AllEncoded(us)
    ensures us[0..] == us && RecordsOf([]) == []
    ensures Chosen(true, us[|us|..]) == Chosen(false, us[|us|..]) == []
  {
  }

  lemma {:induction false} ChosenStep(us: seq<Encoded>, k: nat, isFirst: bool)
    requires AllEncoded(us) && k < |us|
    ensures Chosen(isFirst, us[k..])
      == if isFirst && us[k].frameType != 1 then Chosen(true, us[k + 1..])
         else us[k].Frames() + Chosen(false, us[k + 1..])
  {
    assert us[k..][1..] == us[k + 1..];
  }

  // -- What the socket takes --------------------------------------------------------------

  /** What the n-th send of a connection returns: an error or zero, or how many bytes were taken;
      the sends have a timeout, so a record may be taken in part. */
  type Sends = nat -> int

  /** The records of a frame, and of a list of frames. */
  function FrameRecords(f: Frame): (rs: seq<seq<byte>>)
    requires f.Valid()
    ensures |rs| == Count(f) && forall k | 0 <= k < |rs| :: rs[k] == BufferAfter(f, k + 1)
  {
    seq(Count(f), k requires 0 <= k < Count(f) => BufferAfter(f, k + 1))
  }

  function RecordsOf(fs: seq<Frame>): (rs: seq<seq<byte>>)
    requires AllValid(fs)
    ensures forall k | 0 <= k < |rs| :: |rs[k]| == RECORD
  {
    if fs == [] then [] else RecordsOf(fs[..|fs| - 1]) + FrameRecords(fs[|fs| - 1])
  }

  /** How many sends from `k` to `n` succeed before the first that fails. */
  function Taken(net: Sends, k: nat, n: nat): (m: nat)
    requires k <= n
    ensures k <= m <= n
    ensures forall j | k <= j < m :: net(j) > 0
    ensures m < n ==> net(m) <= 0
    decreases n - k
  {
    if k == n || net(k) <= 0 then k else Taken(net, k + 1, n)
  }

  /** The bytes taken of one record. */
  function Got(n: int, r: seq<byte>): (g: seq<byte>)
    requires n > 0
  {
    if n < |r| then r[..n] else r
  }

  /** The bytes taken of the records `rs`, from send number `at` on: nothing after a failed send, and
      nothing is sent again of a record that was taken in part. */
  function Cut(net: Sends, at: nat, rs: seq<seq<byte>>): seq<byte>
    decreases |rs|
  {
    if rs == [] || net(at) <= 0 then [] else Got(net(at), rs[0]) + Cut(net, at + 1, rs[1..])
  }

  lemma {:induction false} TakenBefore(net: Sends, at: nat, k: nat, n: nat)
    requires at <= k <= n
    ensures Taken(net, at, n) == if Taken(net, at, k) < k then Taken(net, at, k) else Taken(net, k, n)
    decreases k - at
  {
    if at < k && net(at) > 0 {
      TakenBefore(net, at + 1, k, n);
    }
  }

  /** The records of `b` follow those of `a`, unless a send has failed. */
  lemma {:induction false} CutConcat(net: Sends, at: nat, a: seq<seq<byte>>, b: seq<seq<byte>>)
    ensures var n := at + |a|;
            Cut(net, at, a + b) == Cut(net, at, a) + if Taken(net, at, n) < n then [] else Cut(net, n, b)
    decreases |a|
  {
    hide Got;
    if a == [] {
      assert a + b == b;
    } else if net(at) > 0 {
      assert (a + b)[1..] == a[1..] + b && (a + b)[0] == a[0];
      CutConcat(net, at + 1, a[1..], b);
      assert at + 1 + |a[1..]| == at + |a|;
    }
  }

  /** Records that are taken whole arrive whole. */
  lemma {:induction false} CutWhole(net: Sends, at: nat, rs: seq<seq<byte>>)
    requires forall k | at <= k < at + |rs| :: net(k) >= RECORD
    requires forall k | 0 <= k < |rs| :: |rs[k]| == RECORD
    ensures Cut(net, at, rs) == Flatten(rs) && Taken(net, at, at + |rs|) == at + |rs|
    decreases |rs|
  {
    if rs != [] {
      CutWhole(net, at + 1, rs[1..]);
      assert at + 1 + |rs[1..]| == at + |rs|;
    }
  }

  lemma {:induction false} RecordsOfConcat(a: seq<Frame>, b: seq<Frame>)
    requires AllValid(a) && AllValid(b)
    ensures RecordsOf(a + b) == RecordsOf(a) + RecordsOf(b)
  {
    hide FrameRecords;
    if b == [] {
      assert a + b == a;
    } else {
      assert (a + b)[..|a + b| - 1] == a + b[..|b| - 1];
      RecordsOfConcat(a, b[..|b| - 1]);
    }
  }

  lemma {:induction false} FrameRecordsBytes(f: Frame, k: nat)
    requires f.Valid() && k <= Count(f)
    ensures Flatten(FrameRecords(f)[..k]) == FrameBytes(f, k)
  {
    hide BufferAfter, FrameBytes;
    var rs := FrameRecords(f);
    if k == 0 {
      FrameBytesStart(f);
    } else {
      FrameRecordsBytes(f, k - 1);
      FrameBytesStep(f, k - 1);
      assert rs[..k] == rs[..k - 1] + [rs[k - 1]];
      FlattenConcat(rs[..k - 1], [rs[k - 1]]);
      FlattenOne(rs[k - 1]);
    }
  }

  /** The records of a list of frames are its stream. */
  lemma {:induction false} RecordsAreStream(fs: seq<Frame>)
    requires AllValid(fs)
    ensures Flatten(RecordsOf(fs)) == StreamBytes(fs)
  {
    hide FrameRecords, FrameBytes;
    if fs != [] {
      var init, f := fs[..|fs| - 1], fs[|fs| - 1];
      RecordsAreStream(init);
      FlattenConcat(RecordsOf(init), FrameRecords(f));
      assert FrameRecords(f)[..Count(f)] == FrameRecords(f);
      FrameRecordsBytes(f, Count(f));
    }
  }

  /** If every send takes its record whole, the socket takes the whole stream. */
  lemma {:induction false} WholeStream(net: Sends, from: nat, fs: seq<Frame>)
    requires AllValid(fs) && forall k | from <= k < from + |RecordsOf(fs)| :: net(k) >= RECORD
    ensures var n := from + |RecordsOf(fs)|;
            Cut(net, from, RecordsOf(fs)) == StreamBytes(fs) && Taken(net, from, n) == n
  {
    hide RecordsOf, Cut, Taken, StreamBytes, Flatten;
    CutWhole(net, from, RecordsOf(fs));
    RecordsAreStream(fs);
  }

  /** When all sends before the j-th take their record whole and the j-th takes a part of it, the
      receiver holds that part, and the next record it finds is put together from that part and from
      the first bytes of the record that is sent next. */
  lemma {:induction false} PartialTakeShifts(net: Sends, at: nat, rs: seq<seq<byte>>, j: nat)
    requires j < |rs| && (forall k | 0 <= k < |rs| :: |rs[k]| == RECORD)
    requires (forall k | at <= k < at + j :: net(k) >= RECORD) && 0 < net(at + j) < RECORD
    ensures var taken := Cut(net, at, rs[..j + 1]);
            var part := rs[j][..net(at + j)];
            && Records(taken) == rs[..j] && Tail(taken) == part != []
            && forall r: seq<byte> | |r| == RECORD :: Records(taken + r) == rs[..j] + [part + r[..RECORD - |part|]]
  {
    hide Cut, Taken, Records, Tail, Flatten;
    var before, part := rs[..j], rs[j][..net(at + j)];
    assert rs[..j + 1] == before + [rs[j]];
    CutWhole(net, at, before);
    CutConcat(net, at, before, [rs[j]]);
    OneCut(net, at + j, rs[j]);
    FlatRecords(before);
    RecordsConcat(Flatten(before), part);
    NoRecord(part);
    assert before + [] == before;
    var taken := Cut(net, at, rs[..j + 1]);
    forall r: seq<byte> | |r| == RECORD ensures Records(taken + r) == before + [part + r[..RECORD - |part|]] {
      OneMore(taken, r);
    }
  }

  lemma {:induction false} OneCut(net: Sends, at: nat, r: seq<byte>)
    ensures Cut(net, at, [r]) == if net(at) > 0 then Got(net(at), r) else []
  {
    assert Cut(net, at + 1, [r][1..]) == [];
  }

  lemma {:induction false} NoRecord(part: seq<byte>)
    requires |part| < RECORD
    ensures Records(part) == [] && Tail(part) == part
  {
  }

  lemma {:induction false} FlatRecords(rs: seq<seq<byte>>)
    requires forall k | 0 <= k < |rs| :: |rs[k]| == RECORD
    ensures Records(Flatten(rs)) == rs && Tail(Flatten(rs)) == []
  {
    if rs != [] {
      FlatRecords(rs[1..]);
      assert Flatten(rs)[..RECORD] == rs[0] && Flatten(rs)[RECORD..] == Flatten(rs[1..]);
    }
  }

  lemma {:induction false} RecordCount(s: seq<byte>)
    ensures |s| == RECORD * |Records(s)| + |Tail(s)|
    decreases |s|
  {
    if |s| >= RECORD {
      RecordCount(s[RECORD..]);
    }
  }

  lemma {:induction false} CutLength(net: Sends, at: nat, rs: seq<seq<byte>>)
    requires forall k | 0 <= k < |rs| :: |rs[k]| == RECORD
    ensures |Cut(net, at, rs)| <= RECORD * |rs|
    ensures |Cut(net, at, rs)| == RECORD * |rs| ==> forall k | at <= k < at + |rs| :: net(k) >= RECORD
    decreases |rs|
  {
    if rs != [] {
      CutLength(net, at + 1, rs[1..]);
      assert at + 1 + |rs[1..]| == at + |rs|;
    }
  }

  /** The receiver finds the records that were sent if and only if every send takes its record whole. */
  lemma {:induction false} WholeIff(net: Sends, at: nat, rs: seq<seq<byte>>)
    requires forall k | 0 <= k < |rs| :: |rs[k]| == RECORD
    ensures Records(Cut(net, at, rs)) == rs <==> forall k | at <= k < at + |rs| :: net(k) >= RECORD
  {
    hide Cut, Records, Tail, Flatten;
    if forall k | at <= k < at + |rs| :: net(k) >= RECORD {
      CutWhole(net, at, rs);
      FlatRecords(rs);
    } else {
      CutLength(net, at, rs);
      RecordCount(Cut(net, at, rs));
    }
  }

  lemma {:induction false} FirstOfRecords(s: seq<byte>)
    requires |s| >= RECORD
    ensures Records(s) == [s[..RECORD]] + Records(s[RECORD..]) && Tail(s) == Tail(s[RECORD..])
  {
  }

  /** Bytes followed by one record. */
  lemma {:induction false} OneMore(part: seq<byte>, r: seq<byte>)
    requires |r| == RECORD
    ensures var t := Tail(part); Records(part + r) == Records(part) + [t + r[..RECORD - |t|]]
    decreases |part|
  {
    hide Records, Tail;
    FirstOfRecords(part + r);
    if |part| < RECORD {
      assert (part + r)[..RECORD] == part + r[..RECORD - |part|];
      NoRecord((part + r)[RECORD..]);
      NoRecord(part);
    } else {
      assert (part + r)[..RECORD] == part[..RECORD] && (part + r)[RECORD..] == part[RECORD..] + r;
      FirstOfRecords(part);
      OneMore(part[RECORD..], r);
    }
  }

  /** After any takes, whole or in part, of the records `a`: a record that is then taken whole is found
      as it is, whatever its bytes, if and only if the bytes taken so far are a multiple of the
      record size; from there on what is sent is cut at its own boundaries again. */
  lemma {:induction false} AlignedAgain(net: Sends, at: nat, a: seq<seq<byte>>)
    requires (forall k | 0 <= k < |a| :: |a[k]| == RECORD) && Taken(net, at, at + |a|) == at + |a|
    ensures var part := Cut(net, at, a);
            && ((forall r: seq<byte> | |r| == RECORD :: Records(part + r) == Records(part) + [r])
                <==> |part| % RECORD == 0)
            && (|part| % RECORD == 0 ==>
                  forall b :: Records(Cut(net, at, a + b)) == Records(part) + Records(Cut(net, at + |a|, b)))
  {
    hide Cut, Taken, Records, Tail;
    var part := Cut(net, at, a);
    var t := Tail(part);
    RecordCount(part);
    if |part| % RECORD == 0 {
      forall r: seq<byte> | |r| == RECORD ensures Records(part + r) == Records(part) + [r] {
        OneMore(part, r);
        assert [] + r[..RECORD] == r;
      }
      forall b ensures Records(Cut(net, at, a + b)) == Records(part) + Records(Cut(net, at + |a|, b)) {
        CutConcat(net, at, a, b);
        RecordsConcat(part, Cut(net, at + |a|, b));
      }
    } else {
      var r: seq<byte> := seq(RECORD, _ => if t[0] == 0 then 1 else 0);
      OneMore(part, r);
      var cut := t + r[..RECORD - |t|];
      assert cut[0] != r[0];
      assert (Records(part) + [cut])[|Records(part)|] != (Records(part) + [r])[|Records(part)|];
    }
  }

  /** Two sends that each take half of their record: the halves are found as one record, and the next
      record is whole again. */
  lemma {:induction false} TwoHalves(net: Sends, at: nat, a: seq<byte>, b: seq<byte>, c: seq<byte>)
    requires |a| == |b| == |c| == RECORD && net(at) == net(at + 1) == 650 && net(at + 2) >= RECORD
    ensures Records(Cut(net, at, [a, b, c])) == [a[..650] + b[..650], c] && Tail(Cut(net, at, [a, b, c])) == []
  {
    hide Records, Tail;
    assert [a, b, c][1..] == [b, c] && [b, c][1..] == [c];
    OneCut(net, at + 2, c);
    var mixed := a[..650] + b[..650];
    assert Cut(net, at, [a, b, c]) == a[..650] + (b[..650] + c) == mixed + c;
    FlatRecords([mixed, c]);
    assert [mixed, c][1..] == [c] && Flatten([mixed, c]) == mixed + Flatten([c]);
    FlattenOne(c);
  }

  /** main replaces clientPid whenever a client connects, also while a frame is being sent: from the
      k-th record on the new client gets the packets the old one would have got. */
  lemma {:induction false} LateClient(fs: seq<Frame>, k: nat)
    requires AllValid(fs) && k <= |RecordsOf(fs)|
    ensures |Packets(StreamBytes(fs))| == |RecordsOf(fs)|
    ensures Packets(Flatten(RecordsOf(fs)[k..])) == Packets(StreamBytes(fs))[k..]
  {
    hide RecordsOf, Records, Flatten, Parse;
    var rs := RecordsOf(fs);
    RecordsAreStream(fs);
    FlatRecords(rs);
    FlatRecords(rs[k..]);
  }

  // -- The sender -------------------------------------------------------------------------

  class Sender {
    var clientPid: int
    const network: Sends
    var sends: nat
    /** Everything the socket has taken. */
    ghost var wire: seq<byte>

    constructor (pid: int, network: Sends)
      ensures clientPid == pid && wire == [] && sends == 0 && this.network == network
    {
      clientPid, wire, sends := pid, [], 0;
      this.network := network;
    }

    /** The records `rs` have been sent since the sender was as given. */
    ghost predicate Sent(before: seq<byte>, from: nat, pid: int, rs: seq<seq<byte>>)
      reads this
    {
      && wire == before + Cut(network, from, rs)
      && if Taken(network, from, from + |rs|) == from + |rs| then clientPid == pid && sends == from + |rs|
         else clientPid == -1
    }

    /** One round of the loop: fill the buffer, then send it. A send to no client fails. */
    method SendRecord(buf: array<byte>, p: Packet) returns (ret: int)
      requires p.Sendable() && buf.Length == RECORD
      modifies this, buf
      ensures buf[..] == Record(p, old(buf[..]))
      ensures old(clientPid) > 0 ==> ret == network(old(sends)) && sends == old(sends) + 1
      ensures old(clientPid) <= 0 ==> ret <= 0 && sends == old(sends)
      ensures wire == old(wire) + if ret <= 0 then [] else Got(ret, buf[..])
      ensures clientPid == if ret <= 0 then -1 else old(clientPid)
    {
      WriteRecord(buf, p);
      ret := -1;
      if clientPid > 0 {
        ret := network(sends);
        sends := sends + 1;
      }
      if ret <= 0 {
        clientPid := -1;
      } else {
        wire := wire + Got(ret, buf[..]);
      }
    }

    /** The first `k` of the records `rs` have been sent, and no send has failed. */
    ghost predicate Halfway(before: seq<byte>, from: nat, pid: int, rs: seq<seq<byte>>, k: nat)
      requires k <= |rs|
      reads this
    {
      && clientPid == pid > 0 && sends == from + k
      && wire == before + Cut(network, from, rs[..k]) && Taken(network, from, from + k) == from + k
    }

    /** The k-th record; without a client nothing is sent. */
    method SendNext(buf: array<byte>, p: Packet,
        ghost before: seq<byte>, ghost from: nat, ghost pid: int, ghost rs: seq<seq<byte>>, ghost k: nat)
      returns (ret: int)
      requires p.Sendable() && buf.Length == RECORD
      requires k < |rs| && rs[k] == Record(p, buf[..])
      requires pid > 0 ==> Halfway(before, from, pid, rs, k)
      requires pid <= 0 ==> clientPid <= 0 && wire == before
      modifies this, buf
      ensures buf[..] == rs[k]
      ensures pid > 0 ==> if ret > 0 then Halfway(before, from, pid, rs, k + 1) else Sent(before, from, pid, rs)
      ensures pid <= 0 ==> ret <= 0 && clientPid == -1 && wire == before
    {
      hide Cut, Taken, Got, Record;
      if pid > 0 {
        if network(from + k) > 0 { OneMoreTaken(network, from, rs, k); } else { NoneTakenAfter(network, from, rs, k); }
      }
      ret := SendRecord(buf, p);
    }

    /** sendToSocket: the records of the frame, up to the first failed send. */
    method SendToSocket(framData: seq<byte>, frameType: int, pts: nat)
      requires Frame(framData, frameType, pts).Valid()
      modifies this
      ensures var f := Frame(framData, frameType, pts);
              if old(clientPid) > 0 then Sent(old(wire), old(sends), old(clientPid), FrameRecords(f))
              else wire == old(wire) && clientPid == -1
    {
      hide Count, PacketAt, FrameRecords, BufferAfter, Record, Packet.Sendable, Frame.Valid, Cut, Taken, Halfway, Sent;
      ghost var f := Frame(framData, frameType, pts);
      ghost var rs, before, from, pid := FrameRecords(f), wire, sends, clientPid;
      var info := Info(frameType, pts, if frameType == 1 then 0 else 1, 0, |framData|, 0, 1, 0);
      var len, data, offset := |framData|, 0, 0;
      ghost var k := 0;
      var buf := new byte[RECORD](_ => 0);
      FrameBytesStart(f);
      if pid > 0 { NotYet(rs); }
      var more := true;
      while more
        invariant 0 <= k <= Count(f) == |rs|
        invariant 0 <= data <= data + offset <= |framData|
        invariant more ==> k < Count(f) && data + offset == CHUNK * k == |framData| - len
        invariant info == Info(frameType, pts, f.EndOfFrame(), 0, |framData|, info.offset, if k == 0 then 1 else 0, 0)
        invariant buf.Length == RECORD && fresh(buf)
        invariant more ==> buf[..] == BufferAfter(f, k)
        invariant pid > 0 ==> if more then Halfway(before, from, pid, rs, k) else Sent(before, from, pid, rs)
        invariant pid <= 0 ==> wire == before && if more then clientPid <= 0 else clientPid == -1
        decreases more, Count(f) - k
      {
        data := data + offset;
        offset := if len > CHUNK then CHUNK else len;
        info := info.(offset := offset);
        PacketIs(f, k, data, offset);
        FrameBytesStep(f, k);
        var ret := SendNext(buf, Packet(info, framData[data..data + offset]), before, from, pid, rs, k);
        more := ret > 0;
        if more {
          info := info.(start := 0);
          len := len - offset;
          k := k + 1;
          more := len > 0;
          if !more { AllSent(before, from, pid, rs); }
        }
      }
    }

    lemma {:induction false} NotYet(rs: seq<seq<byte>>)
      requires clientPid > 0
      ensures Halfway(wire, sends, clientPid, rs, 0)
    {
      NothingTaken(network, sends, rs);
    }

    lemma {:induction false} AllSent(before: seq<byte>, from: nat, pid: int, rs: seq<seq<byte>>)
      requires Halfway(before, from, pid, rs, |rs|)
      ensures Sent(before, from, pid, rs)
    {
      assert rs[..|rs|] == rs;
    }

    /** The parameter sets, if any, and the frame of one round. */
    method SendEncoded(u: Encoded)
      requires u.Valid() && clientPid > 0
      modifies this
      ensures Sent(old(wire), old(sends), old(clientPid), RecordsOf(u.Frames()))
    {
      hide FrameRecords, Cut, Taken;
      OneFrameRecords(Frame(u.data, 0, u.pts));
      if u.frameType == 1 {
        var head, data := Frame(u.head, 1, u.pts), Frame(u.data, 0, u.pts);
        OneFrameRecords(head);
        RecordsOfConcat([head], [data]);
        FollowsOn(network, sends, FrameRecords(head), FrameRecords(data));
        SendToSocket(u.head, u.frameType, u.pts);
      }
      SendToSocket(u.data, 0, u.pts);
      assert [] + [Frame(u.data, 0, u.pts)] == [Frame(u.data, 0, u.pts)];
    }

    /** SendStream_1 on one connection: of the records of the chosen frames, what the sends take up
        to the first that fails; nothing without a client. */
    method SendStream(us: seq<Encoded>)
      requires AllEncoded(us)
      modifies this
      ensures if old(clientPid) > 0 then Sent(old(wire), old(sends), old(clientPid), RecordsOf(Chosen(true, us)))
              else wire == old(wire) && clientPid == old(clientPid)
    {
      hide RecordsOf, Chosen, Encoded.Frames, Encoded.Valid, Cut, Taken, Sent, StreamBytes, Halfway, InStream;
      var isFirst := true;
      ghost var before, from, pid, all := wire, sends, clientPid, Chosen(true, us);
      ghost var sent: seq<Frame> := [];
      ChosenEnds(us);
      if pid > 0 { NoFrames(); }
      for k := 0 to |us|
        invariant AllValid(sent)
        invariant clientPid > 0 ==> pid > 0 && InStream(before, from, pid, sent) && all == sent + Chosen(isFirst, us[k..])
        invariant clientPid <= 0 && pid > 0 ==> Sent(before, from, pid, RecordsOf(all))
        invariant pid <= 0 ==> wire == before && clientPid == pid
      {
        ChosenStep(us, k, isFirst);
        if clientPid > 0 && (!isFirst || us[k].frameType == 1) {
          ghost var frames, rest := us[k].Frames(), Chosen(false, us[k + 1..]);
          assert sent + (frames + rest) == (sent + frames) + rest;
          SendRound(us[k], before, from, pid, sent, rest);
          sent := sent + frames;
          isFirst := false;
        } else {
          isFirst := true;
        }
      }
      assert sent + [] == sent;
      if clientPid > 0 { StreamSent(before, from, pid, sent); }
    }

    /** The frames `fs` have been sent, and no send has failed. */
    ghost predicate InStream(before: seq<byte>, from: nat, pid: int, fs: seq<Frame>)
      requires AllValid(fs)
      reads this
    {
      Halfway(before, from, pid, RecordsOf(fs), |RecordsOf(fs)|)
    }

    lemma {:induction false} NoFrames()
      requires clientPid > 0
      ensures InStream(wire, sends, clientPid, [])
    {
      NotYet([]);
    }

    lemma {:induction false} StreamSent(before: seq<byte>, from: nat, pid: int, fs: seq<Frame>)
      requires AllValid(fs) && InStream(before, from, pid, fs)
      ensures Sent(before, from, pid, RecordsOf(fs))
    {
      AllSent(before, from, pid, RecordsOf(fs));
    }

    /** One round after the frames `sent`: if a send fails, that is all that is sent of the stream. */
    method SendRound(u: Encoded, ghost before: seq<byte>, ghost from: nat, ghost pid: int,
        ghost sent: seq<Frame>, ghost rest: seq<Frame>)
      requires u.Valid() && AllValid(sent) && AllValid(rest) && InStream(before, from, pid, sent)
      modifies this
      ensures if clientPid > 0 then InStream(before, from, pid, sent + u.Frames())
              else Sent(before, from, pid, RecordsOf(sent + u.Frames() + rest))
    {
      hide RecordsOf, Encoded.Frames, Encoded.Valid, Cut, Taken;
      ghost var frames := u.Frames();
      ghost var a, b, c := RecordsOf(sent), RecordsOf(frames), RecordsOf(rest);
      RecordsOfConcat(sent, frames);
      RecordsOfConcat(sent + frames, rest);
      FollowsOn(network, from, a, b);
      FollowsOn(network, from, a + b, c);
      assert a[..|a|] == a && (a + b)[..|a + b|] == a + b;
      SendEncoded(u);
    }
  }

  lemma {:induction false} NothingTaken(net: Sends, at: nat, rs: seq<seq<byte>>)
    ensures rs[..0] == [] && Cut(net, at, []) == [] && Taken(net, at, at) == at
  {
  }

  lemma {:induction false} OneFrameRecords(f: Frame)
    requires f.Valid()
    ensures RecordsOf([f]) == FrameRecords(f)
  {
    hide FrameRecords;
    assert [f][..0] == [];
    assert [] + FrameRecords(f) == FrameRecords(f);
  }

  lemma {:induction false} NextTaken(net: Sends, at: nat, n: nat, rs: seq<seq<byte>>)
    requires at < n
    ensures net(at) <= 0 ==> Taken(net, at, n) == at && Cut(net, at, rs) == []
    ensures net(at) > 0 ==> Taken(net, at, at + 1) == at + 1
  {
  }

  /** The k-th record: if its send fails, that is all that is taken of the records. */
  lemma {:induction false} NoneTakenAfter(net: Sends, at: nat, rs: seq<seq<byte>>, k: nat)
    requires k < |rs| && Taken(net, at, at + k) == at + k && net(at + k) <= 0
    ensures Cut(net, at, rs) == Cut(net, at, rs[..k]) && Taken(net, at, at + |rs|) < at + |rs|
  {
    hide Got, Cut, Taken;
    TakenBefore(net, at, at + k, at + |rs|);
    NextTaken(net, at + k, at + |rs|, rs[k..]);
    assert rs == rs[..k] + rs[k..];
    CutConcat(net, at, rs[..k], rs[k..]);
    assert Cut(net, at, rs[..k]) + [] == Cut(net, at, rs[..k]);
  }

  lemma {:induction false} OneMoreTaken(net: Sends, at: nat, rs: seq<seq<byte>>, k: nat)
    requires k < |rs| && Taken(net, at, at + k) == at + k && net(at + k) > 0
    ensures Taken(net, at, at + k + 1) == at + k + 1
    ensures Cut(net, at, rs[..k + 1]) == Cut(net, at, rs[..k]) + Got(net(at + k), rs[k])
  {
    hide Got, Cut, Taken;
    TakenBefore(net, at, at + k, at + k + 1);
    NextTaken(net, at + k, at + k + 1, []);
    assert rs[..k + 1] == rs[..k] + [rs[k]];
    CutConcat(net, at, rs[..k], [rs[k]]);
    OneCut(net, at + k, rs[k]);
  }

  lemma {:induction false} FollowsOn(net: Sends, at: nat, a: seq<seq<byte>>, b: seq<seq<byte>>)
    ensures var n := at + |a|;
            if Taken(net, at, n) == n
            then Cut(net, at, a + b) == Cut(net, at, a) + Cut(net, n, b)
                 && Taken(net, at, at + |a + b|) == Taken(net, n, n + |b|)
            else Cut(net, at, a + b) == Cut(net, at, a) && Taken(net, at, at + |a + b|) < at + |a + b|
  {
    CutConcat(net, at, a, b);
    TakenBefore(net, at, at + |a|, at + |a + b|);
    assert at + |a + b| == at + |a| + |b|;
  }

  /** One memcpy at the write pointer, which then moves past the copied bytes. */
  method Put(buf: array<byte>, ptr: nat, src: seq<byte>) returns (next: nat)
    requires ptr + |src| <= buf.Length
    modifies buf
    ensures next == ptr + |src|
    ensures buf[..next] == old(buf[..ptr]) + src
    ensures forall k | next <= k < buf.Length :: buf[k] == old(buf[k])
  {
    Memcpy(buf, ptr, src);
    next := ptr + |src|;
  }

  /** The memcpy calls that fill the send buffer; bytes past the payload keep their old value. */
  method WriteRecord(buf: array<byte>, p: Packet)
    requires p.Sendable() && buf.Length == RECORD
    modifies buf
    ensures buf[..] == Record(p, old(buf[..]))
  {
    hide Header, Spliced;
    var ptr := WriteHeader(buf, p.info);
    ptr := Put(buf, ptr, p.payload);
    assert buf[..] == buf[..ptr] + buf[ptr..];
  }

  method WriteHeader(buf: array<byte>, info: Info) returns (ptr: nat)
    requires Representable(info) && buf.Length == RECORD
    modifies buf
    ensures ptr == HEADER && buf[..ptr] == Header(info)
    ensures forall k | ptr <= k < buf.Length :: buf[k] == old(buf[k])
  {
    hide LittleEndian, FromSigned, Spliced;
    ptr := Put(buf, 0, LittleEndian(FromSigned(info.frameType), 4));
    ptr := Put(buf, ptr, LittleEndian(info.pts, 8));
    ptr := Put(buf, ptr, LittleEndian(FromSigned(info.endOfFrame), 4));
    ptr := Put(buf, ptr, LittleEndian(FromSigned(info.endOfStream), 4));
    ptr := Put(buf, ptr, LittleEndian(info.len, 4));
    ptr := Put(buf, ptr, LittleEndian(FromSigned(info.offset), 4));
    ptr := Put(buf, ptr, LittleEndian(FromSigned(info.start), 4));
    ptr := Put(buf, ptr, LittleEndian(info.cksum, 8));
  }
}
