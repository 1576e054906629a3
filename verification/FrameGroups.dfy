/** What the receiver makes of any records at all: a start record and whatever follows it up to the
    next one are a group, and a group is handed over when its bytes add up to the length in its
    start record, whichever frames they come from. */
module FrameGroups {
  import opened Bytes
  import opened FrameRecord
  import opened FrameSender
  import opened FrameReceiver
  import opened FrameDelivery

  /** A record that does not start a frame: a bad one, or one without the start flag. */
  predicate Continues(p: Packet) { Bad(p.info) || p.info.start != 1 }

  predicate AllContinue(ps: seq<Packet>) {
    forall k | 0 <= k < |ps| :: Continues(ps[k])
  }

  // -- One group --------------------------------------------------------------------------

  /** The frame buffer, and how much of it is in use. */
  datatype Assembly = Assembly(box: seq<byte>, total: nat)

  /** Where a record's payload goes: behind what is there, unless that is more than the record says
      its frame has; then it is cut back to the length of this payload. */
  function PutAt(total: nat, i: Info): nat {
    if total > i.len && i.offset >= 0 then i.offset else total
  }

  /** The record fits in the buffer, as far as it is copied. */
  predicate Fits(a: Assembly, p: Packet) {
    PutAt(a.total, p.info) + (if p.info.start == 0 then |p.payload| else 0) <= |a.box|
  }

  /** A record that passes the header check and does not start a frame. */
  function Put(a: Assembly, p: Packet): (r: Assembly)
    requires Fits(a, p)
    ensures |r.box| == |a.box| && r.total <= |r.box|
  {
    var at := PutAt(a.total, p.info);
    if p.info.start == 0 then Assembly(Spliced(a.box, at, p.payload), at + |p.payload|) else Assembly(a.box, at)
  }

  /** All records fit. */
  predicate AllFit(a: Assembly, ps: seq<Packet>)
    decreases |ps|
  {
    ps == [] || (if Bad(ps[0].info) then AllFit(a, ps[1..]) else Fits(a, ps[0]) && AllFit(Put(a, ps[0]), ps[1..]))
  }

  function Assembled(a: Assembly, ps: seq<Packet>): (r: Assembly)
    requires AllFit(a, ps)
    ensures |r.box| == |a.box| && (a.total <= |a.box| ==> r.total <= |r.box|)
    decreases |ps|
  {
    if ps == [] then a
    else if Bad(ps[0].info) then Assembled(a, ps[1..])
    else Assembled(Put(a, ps[0]), ps[1..])
  }

  /** The group of a start record that has been handled: what follows assembles the frame, and hands
      nothing over. */
  lemma {:induction false} GroupHandled(c: Core, ps: seq<Packet>)
    requires c.Valid() && c.Live() && !c.needRestart && AllContinue(ps) && Parsed(ps)
    requires c.trycount + BadCount(ps) <= 6 && AllFit(Assembly(c.box, c.totalLen), ps)
    ensures var r, a := HandleAll(c, ps), Assembled(Assembly(c.box, c.totalLen), ps);
            r == c.(box := a.box, totalLen := a.total, trycount := c.trycount + BadCount(ps))
    decreases |ps|
  {
    hide Spliced;
    if ps != [] {
      GroupHandled(Handle(c, ps[0]), ps[1..]);
    }
  }

  /** When the next frame starts, the group is handed over if and only if its bytes add up. */
  lemma {:induction false} GroupEnds(c: Core, ps: seq<Packet>, next: Packet)
    requires c.Valid() && c.Live() && !c.needRestart && AllContinue(ps) && Parsed(ps)
    requires c.trycount + BadCount(ps) <= 6 && AllFit(Assembly(c.box, c.totalLen), ps)
    requires !Continues(next)
    ensures var a := Assembled(Assembly(c.box, c.totalLen), ps);
            HandleAll(c, ps + [next]).out
              == c.out + if a.total == c.vdec.len then [Delivery(c.vdec, a.box[..a.total])] else []
  {
    hide Spliced, Assembled;
    GroupHandled(c, ps);
    HandleAllConcat(c, ps, [next]);
    var d := HandleAll(c, ps);
    assert [next][1..] == [];
    assert HandleAll(d, [next]) == HandleAll(Handle(d, next), []);
  }

  // -- What is assembled --------------------------------------------------------------------

  /** The payloads that are copied. */
  function Gathered(ps: seq<Packet>): seq<byte> {
    if ps == [] then []
    else (if !Bad(ps[0].info) && ps[0].info.start == 0 then ps[0].payload else []) + Gathered(ps[1..])
  }

  /** No record says that its frame has fewer bytes than have come by. */
  predicate NoCutBack(total: nat, ps: seq<Packet>)
    decreases |ps|
  {
    ps == [] ||
    if Bad(ps[0].info) then NoCutBack(total, ps[1..])
    else total <= ps[0].info.len
         && NoCutBack(total + (if ps[0].info.start == 0 then |ps[0].payload| else 0), ps[1..])
  }

  /** Then the payloads are simply put together. */
  lemma {:induction false} PutTogether(a: Assembly, ps: seq<Packet>)
    requires NoCutBack(a.total, ps) && a.total + |Gathered(ps)| <= |a.box|
    ensures AllFit(a, ps)
    ensures var r := Assembled(a, ps);
            r.total == a.total + |Gathered(ps)| && r.box[..r.total] == a.box[..a.total] + Gathered(ps)
    decreases |ps|
  {
    if ps == [] {
      assert a.box[..a.total] + [] == a.box[..a.total];
    } else if Bad(ps[0].info) {
      assert [] + Gathered(ps[1..]) == Gathered(ps[1..]);
      PutTogether(a, ps[1..]);
    } else {
      var p := ps[0];
      var b := Put(a, p);
      var copied := if p.info.start == 0 then p.payload else [];
      assert b.box[..b.total] == a.box[..a.total] + copied;
      PutTogether(b, ps[1..]);
      assert a.box[..a.total] + (copied + Gathered(ps[1..])) == a.box[..a.total] + copied + Gathered(ps[1..]);
    }
  }

  /** A record that says its frame has fewer bytes keeps as many of the bytes that are there as its
      payload has, puts its payload behind them, and drops the rest. */
  lemma {:induction false} CutBack(a: Assembly, p: Packet, ps: seq<Packet>)
    requires !Bad(p.info) && p.info.start == 0 && |p.payload| == p.info.offset && p.info.len < a.total
    requires NoCutBack(2 * p.info.offset, ps) && 2 * p.info.offset + |Gathered(ps)| <= |a.box|
    ensures AllFit(a, [p] + ps)
    ensures var r := Assembled(a, [p] + ps);
            && r.total == 2 * p.info.offset + |Gathered(ps)|
            && r.box[..r.total] == a.box[..p.info.offset] + p.payload + Gathered(ps)
  {
    assert ([p] + ps)[1..] == ps;
    var b := Put(a, p);
    assert b.box[..b.total] == a.box[..p.info.offset] + p.payload;
    PutTogether(b, ps);
  }

  // -- Buffers that were never sent -----------------------------------------------------------

  /** The frame buffer after the start record of `f`. */
  function FirstOf(box: seq<byte>, f: Frame): (a: Assembly)
    requires f.Valid() && |box| >= CHUNK
    ensures |a.box| == |box|
  {
    Assembly(Spliced(box, 0, PacketAt(f, 0).payload), |PacketAt(f, 0).payload|)
  }

  /** The start record of `f`, any other records, and the start record of another frame hand over a
      buffer that is not the frame it is said to be if and only if what is assembled has the length
      of `f` and not its bytes. */
  lemma {:induction false} NeverSent(c: Core, f: Frame, ps: seq<Packet>, next: Packet)
    requires c.Valid() && c.Live() && Deliverable(f, |c.box|)
    requires AllContinue(ps) && Parsed(ps) && !Continues(next)
    requires c.trycount + BadCount(ps) <= 6 && AllFit(FirstOf(c.box, f), ps)
    ensures var r, a := HandleAll(c, [PacketAt(f, 0)] + ps + [next]), Assembled(FirstOf(c.box, f), ps);
            && r.out == c.out + Pending(c)
                 + (if a.total == |f.data| then [Delivery(StreamOf(f), a.box[..a.total])] else [])
            && ((exists bytes :: bytes != f.data && r.out == c.out + Pending(c) + [Delivery(StreamOf(f), bytes)])
                <==> a.total == |f.data| && a.box[..a.total] != f.data)
  {
    hide Assembled, AllFit, Continues, Bad, DeliveryOf;
    FirstRecord(c, f);
    StartIs(c, f);
    var d, a := Handle(c, PacketAt(f, 0)), Assembled(FirstOf(c.box, f), ps);
    assert [PacketAt(f, 0)] + ps + [next] == [PacketAt(f, 0)] + (ps + [next]);
    assert ([PacketAt(f, 0)] + (ps + [next]))[1..] == ps + [next];
    GroupEnds(d, ps, next);
    var r := HandleAll(c, [PacketAt(f, 0)] + ps + [next]);
    assert r.out == HandleAll(d, ps + [next]).out;
    if a.total == |f.data| {
      var out := c.out + Pending(c) + [Delivery(StreamOf(f), a.box[..a.total])];
      assert out[|out| - 1].bytes == a.box[..a.total];
      forall bytes | r.out == c.out + Pending(c) + [Delivery(StreamOf(f), bytes)] ensures bytes == a.box[..a.total] {
        assert r.out[|r.out| - 1] == Delivery(StreamOf(f), bytes);
      }
    } else {
      assert c.out + Pending(c) + [] == c.out + Pending(c);
    }
  }

  lemma {:induction false} StartIs(c: Core, f: Frame)
    requires c.Valid() && c.Live() && Deliverable(f, |c.box|)
    ensures var d := Handle(c, PacketAt(f, 0));
            Assembly(d.box, d.totalLen) == FirstOf(c.box, f) && !d.needRestart && d.vdec == StreamOf(f)
  {
  }

  /** With no cut-back: if and only if the payloads that come by make up the rest of the frame in
      length and not in content. */
  lemma {:induction false} SplicedIff(c: Core, f: Frame, ps: seq<Packet>, next: Packet)
    requires c.Valid() && c.Live() && Deliverable(f, |c.box|)
    requires AllContinue(ps) && Parsed(ps) && !Continues(next) && c.trycount + BadCount(ps) <= 6
    requires NoCutBack(PayloadEnd(f, 0), ps) && PayloadEnd(f, 0) + |Gathered(ps)| <= |c.box|
    ensures var r, first := HandleAll(c, [PacketAt(f, 0)] + ps + [next]), PayloadEnd(f, 0);
            (exists bytes :: bytes != f.data && r.out == c.out + Pending(c) + [Delivery(StreamOf(f), bytes)])
            <==> |Gathered(ps)| == |f.data| - first && Gathered(ps) != f.data[first..]
  {
    hide HandleAll, Gathered, NoCutBack;
    var a, first := FirstOf(c.box, f), PayloadEnd(f, 0);
    assert a.box[..a.total] == f.data[..first];
    PutTogether(a, ps);
    NeverSent(c, f, ps, next);
    assert f.data == f.data[..first] + f.data[first..];
    assert Gathered(ps) == (f.data[..first] + Gathered(ps))[first..];
  }

  /** If start records can be lost, frames that were never sent can be handed over: here the
      second record of `a` and the first of `b` are lost, and `next` begins. */
  lemma {:induction false} LostStartSplicesFrames(c: Core, a: Frame, b: Frame, next: Frame)
    requires Deliverable(a, |c.box|) && Deliverable(b, |c.box|) && Deliverable(next, |c.box|)
    requires c.Valid() && c.Live() && c.needRestart
    requires CHUNK < |a.data| == |b.data| <= 2 * CHUNK
    ensures var r := HandleAll(c, [PacketAt(a, 0), PacketAt(b, 1), PacketAt(next, 0)]);
            r.out == c.out + [Delivery(StreamOf(a), a.data[..CHUNK] + b.data[CHUNK..])]
  {
    var ps := [PacketAt(a, 0), PacketAt(b, 1), PacketAt(next, 0)];
    FirstRecord(c, a);
    var c1 := Handle(c, ps[0]);
    var c2 := Handle(c1, ps[1]);
    assert c2.box[..c2.totalLen] == c1.box[..CHUNK] + PacketAt(b, 1).payload;
    assert PacketAt(b, 1).payload == b.data[CHUNK..];
    FirstRecord(c2, next);
    assert ps[1..][1..] == [ps[2]] && ps[1..][0] == ps[1];
    assert ps[1..][1..][1..] == [];
    assert HandleAll(c2, ps[1..][1..]) == Handle(c2, ps[2]);
    assert HandleAll(c1, ps[1..]) == Handle(c2, ps[2]);
  }

  // -- Any records ------------------------------------------------------------------------

  datatype Group = Group(start: Packet, rest: seq<Packet>) {
    predicate Valid() {
      && !Continues(start) && |start.payload| == start.info.offset
      && AllContinue(rest) && Parsed(rest)
    }

    function Packets(): seq<Packet> { [start] + rest }

    function First(box: seq<byte>): (a: Assembly)
      requires Valid() && |box| >= CHUNK
      ensures |a.box| == |box| && a.total <= |a.box|
    {
      Assembly(Spliced(box, 0, start.payload), |start.payload|)
    }

    function Stream(): Vdec { Vdec(start.info.pts, start.info.len, start.info.endOfFrame == 1) }
  }

  function Flat(gs: seq<Group>): seq<Packet> {
    if gs == [] then [] else gs[0].Packets() + Flat(gs[1..])
  }

  predicate AllGroups(gs: seq<Group>) {
    forall k | 0 <= k < |gs| :: gs[k].Valid()
  }

  predicate GroupsFit(box: seq<byte>, gs: seq<Group>)
    requires AllGroups(gs) && |box| >= CHUNK
    decreases |gs|
  {
    gs == [] ||
    (AllFit(gs[0].First(box), gs[0].rest) && GroupsFit(Assembled(gs[0].First(box), gs[0].rest).box, gs[1..]))
  }

  /** A buffer for each group whose bytes add up to the length in its start record. */
  function Buffers(box: seq<byte>, gs: seq<Group>): seq<Delivery>
    requires AllGroups(gs) && |box| >= CHUNK && GroupsFit(box, gs)
    decreases |gs|
  {
    if gs == [] then []
    else
      var a := Assembled(gs[0].First(box), gs[0].rest);
      (if a.total == gs[0].start.info.len then [Delivery(gs[0].Stream(), a.box[..a.total])] else [])
      + Buffers(a.box, gs[1..])
  }

  lemma {:induction false} OneGroup(c: Core, g: Group)
    requires c.Valid() && c.Live() && g.Valid() && AllFit(g.First(c.box), g.rest)
    requires c.trycount + BadCount(g.Packets()) <= 6
    ensures var r, a := HandleAll(c, g.Packets()), Assembled(g.First(c.box), g.rest);
            && r.Live() && r.box == a.box && r.trycount == c.trycount + BadCount(g.Packets())
            && r.out == c.out + Pending(c)
            && Pending(r) == if a.total == g.start.info.len then [Delivery(g.Stream(), a.box[..a.total])] else []
  {
    hide Assembled, AllFit;
    var d := Handle(c, g.start);
    assert g.Packets()[1..] == g.rest;
    assert Assembly(d.box, d.totalLen) == g.First(c.box) && d.vdec == g.Stream() && !d.needRestart;
    GroupHandled(d, g.rest);
  }

  lemma {:induction false} GroupsRun(c: Core, gs: seq<Group>)
    requires c.Valid() && c.Live() && AllGroups(gs) && GroupsFit(c.box, gs)
    requires c.trycount + BadCount(Flat(gs)) <= 6
    ensures var r := HandleAll(c, Flat(gs));
            r.Live() && r.out + Pending(r) == c.out + Pending(c) + Buffers(c.box, gs)
    decreases |gs|
  {
    hide Handle, Pending, Assembled, AllFit, Group.Valid, Group.First, Group.Stream, Group.Packets;
    if gs == [] {
      assert c.out + Pending(c) + [] == c.out + Pending(c);
    } else {
      var g := gs[0];
      BadCountConcat(g.Packets(), Flat(gs[1..]));
      HandleAllConcat(c, g.Packets(), Flat(gs[1..]));
      OneGroup(c, g);
      var d := HandleAll(c, g.Packets());
      GroupsRun(d, gs[1..]);
      assert c.out + Pending(c) + (Pending(d) + Buffers(d.box, gs[1..]))
        == c.out + Pending(c) + Pending(d) + Buffers(d.box, gs[1..]);
    }
  }

  /** Every list of records is junk and groups, in one way. */
  function Junk(ps: seq<Packet>): (junk: seq<Packet>)
    ensures junk <= ps && AllContinue(junk)
    ensures |junk| < |ps| ==> !Continues(ps[|junk|])
  {
    if ps == [] || !Continues(ps[0]) then [] else [ps[0]] + Junk(ps[1..])
  }

  function Groups(ps: seq<Packet>): (gs: seq<Group>)
    requires Parsed(ps) && (ps != [] ==> !Continues(ps[0]))
    ensures AllGroups(gs) && Flat(gs) == ps
    decreases |ps|
  {
    if ps == [] then []
    else
      var rest := Junk(ps[1..]);
      assert ps == [ps[0]] + rest + ps[1..][|rest|..];
      [Group(ps[0], rest)] + Groups(ps[1..][|rest|..])
  }

  /** Whatever records come to a receiver that waits for a start record, at most six of them bad and
      none too many for its buffer: what precedes the first start record is dropped, and of the
      groups that follow exactly those are handed over, or pending, whose bytes add up. */
  lemma {:induction false} AnyRecords(c: Core, ps: seq<Packet>)
    requires c.Valid() && c.Live() && c.needRestart && Parsed(ps)
    requires c.trycount + BadCount(ps) <= 6
    requires GroupsFit(c.box, Groups(ps[|Junk(ps)|..]))
    ensures var r := HandleAll(c, ps);
            r.Live() && r.out + Pending(r) == c.out + Buffers(c.box, Groups(ps[|Junk(ps)|..]))
  {
    hide Handle, Buffers, GroupsFit, Junk, Groups, Bad;
    var junk, rest := Junk(ps), ps[|Junk(ps)|..];
    assert ps == junk + rest;
    BadCountConcat(junk, rest);
    HandleAllConcat(c, junk, rest);
    Resync(c, junk);
    var d := HandleAll(c, junk);
    GroupsRun(d, Groups(rest));
    assert Pending(d) == [] && d.out + [] == c.out;
  }

  /** The same from bytes, however they are cut. */
  lemma {:induction false} AnyBytes(s: Receiver, pieces: seq<seq<byte>>)
    requires Fresh(s) && Pieces(pieces)
    requires var ps := Packets(Flatten(pieces));
             && s.core.trycount + BadCount(ps) <= 6
             && GroupsFit(s.core.box, Groups(ps[|Junk(ps)|..]))
    ensures var ps, r := Packets(Flatten(pieces)), Run(s, pieces).core;
            r.Live() && r.out + Pending(r) == s.core.out + Buffers(s.core.box, Groups(ps[|Junk(ps)|..]))
  {
    hide Run, HandleAll, Packets, Buffers, GroupsFit, Groups, Junk, Tail, BadCount;
    assert s.save + Flatten(pieces) == Flatten(pieces);
    Deframing(s, pieces);
    AnyRecords(s.core, Packets(Flatten(pieces)));
  }
}
