/** What an interleaved client whose socket is slow is really sent when it is not the last one in
    the fan-out: its write queue holds a reference to the packet, into which the later clients
    write their headers. */
module SharedPacket {
  import opened Bytes
  import opened RtpPacket
  import opened BufferWriters

  const RESERVED := TCP_HEAD + RTP_HEADER

  /** What a client writes into the reserved bytes: over TCP all 16 of them, else the last 12. */
  datatype Stamp = Stamp(tcp: bool, head: seq<byte>) {
    predicate Valid() { |head| == RESERVED }

    function On(reserved: seq<byte>): (r: seq<byte>)
      requires Valid() && |reserved| == RESERVED
      ensures |r| == RESERVED
    {
      if tcp then head else reserved[..TCP_HEAD] + head[TCP_HEAD..]
    }
  }

  predicate AllValid(later: seq<Stamp>) {
    forall k | 0 <= k < |later| :: later[k].Valid()
  }

  /** The reserved bytes after the turns of the later clients. */
  function AllOn(reserved: seq<byte>, later: seq<Stamp>): (r: seq<byte>)
    requires AllValid(later) && |reserved| == RESERVED
    ensures |r| == RESERVED
  {
    if later == [] then reserved else later[|later| - 1].On(AllOn(reserved, later[..|later| - 1]))
  }

  method WriteStamp(pkt: array<byte>, s: Stamp)
    requires s.Valid() && RESERVED <= pkt.Length
    modifies pkt
    ensures pkt[..RESERVED] == s.On(old(pkt[..RESERVED]))
    ensures pkt[RESERVED..] == old(pkt[RESERVED..])
  {
    if s.tcp {
      Memcpy(pkt, 0, s.head);
    } else {
      Memcpy(pkt, TCP_HEAD, s.head[TCP_HEAD..]);
    }
  }

  method WriteStamps(pkt: array<byte>, later: seq<Stamp>)
    requires AllValid(later) && RESERVED <= pkt.Length
    modifies pkt
    ensures pkt[..RESERVED] == AllOn(old(pkt[..RESERVED]), later)
    ensures pkt[RESERVED..] == old(pkt[RESERVED..])
  {
    hide Stamp.On;
    for k := 0 to |later|
      invariant pkt[..RESERVED] == AllOn(old(pkt[..RESERVED]), later[..k])
      invariant pkt[RESERVED..] == old(pkt[RESERVED..])
    {
      assert later[..k + 1][..k] == later[..k];
      WriteStamp(pkt, later[k]);
    }
    assert later[..|later|] == later;
  }

  // -- What is left of the packet when the later clients have their turns --------------------

  lemma {:induction false} LastDrained(queue: seq<seq<byte>>, n: nat)
    requires queue != []
    ensures var r, p := Drained(queue, n), queue[|queue| - 1];
            r != [] ==> |r[|r| - 1]| <= |p| && r[|r| - 1] == p[|p| - |r[|r| - 1]|..]
  {
    var r, p := Drained(queue, n), queue[|queue| - 1];
    if n < |queue[0]| && |queue| == 1 {
      assert r == [p[n..]];
    } else if r != [] {
      assert r[|r| - 1] == p == p[0..];
    }
  }

  /** Of the last packet of the queue, a final part is left at most. */
  lemma {:induction false} LastIsLeft(net: Network, s: Socket)
    requires s.Valid() && s.queue != []
    ensures var r, p := Flushed(net, s).socket.queue, s.queue[|s.queue| - 1];
            r != [] ==> |r[|r| - 1]| <= |p| && r[|r| - 1] == p[|p| - |r[|r| - 1]|..]
    decreases |Flatten(s.queue)|
  {
    hide Flushed, Drained, Flatten;
    FlushStep(net, s);
    var t := SentOnce(net, s).socket;
    if net(s.attempts).Took? {
      LastDrained(s.queue, net(s.attempts).n);
    }
    if GoesOn(net, s) {
      LastIsLeft(net, t);
    }
  }

  /** The socket with the packet appended to its queue. */
  function With(s: Socket, packet: seq<byte>): (r: Socket)
    requires s.Valid() && packet != []
    ensures r.Valid()
  {
    s.(queue := s.queue + [packet])
  }

  /** How many bytes of the packet the socket takes before the turns of the later clients. */
  function TakenAtOnce(net: Network, s: Socket, packet: seq<byte>): (k: nat)
    requires s.Valid() && packet != []
    ensures k <= |packet|
  {
    LastIsLeft(net, With(s, packet));
    var q := Flushed(net, With(s, packet)).socket.queue;
    if q == [] then |packet| else |packet| - |q[|q| - 1]|
  }

  /** What the client gets of its packet if the socket takes `k` bytes at once, and `reserved` are
      the reserved bytes when all clients have had their turns. */
  function Mixed(own: seq<byte>, reserved: seq<byte>, payload: seq<byte>, k: nat): seq<byte>
    requires |own| == |reserved| == RESERVED && k <= RESERVED + |payload|
  {
    (own + payload)[..k] + (reserved + payload)[k..]
  }

  /** Bytes taken, with the rest of the last packet replaced. */
  lemma {:induction false} RestReplaced(s: Socket, t: Socket, packet: seq<byte>, rest: seq<byte>)
    requires s.wire + Flatten(s.queue + [packet]) == t.wire + Flatten(t.queue)
    requires |rest| <= |packet| && t.queue != [] && t.queue[|t.queue| - 1] == packet[|packet| - |rest|..]
    ensures t.wire + Flatten(t.queue[..|t.queue| - 1] + [rest])
      == s.wire + Flatten(s.queue) + (packet[..|packet| - |rest|] + rest)
  {
    var init, last := t.queue[..|t.queue| - 1], t.queue[|t.queue| - 1];
    var k := |packet| - |rest|;
    assert t.queue == init + [last];
    FlattenConcat(init, [last]);
    FlattenConcat(init, [rest]);
    FlattenConcat(s.queue, [packet]);
    FlattenOne(last);
    FlattenOne(rest);
    FlattenOne(packet);
    assert packet == packet[..k] + packet[k..];
    hide Flatten;
    Exchange(s.wire, Flatten(s.queue), packet[..k], last, t.wire, Flatten(init), rest);
  }

  lemma {:induction false} Exchange(w: seq<byte>, a: seq<byte>, b: seq<byte>, c: seq<byte>,
      u: seq<byte>, d: seq<byte>, e: seq<byte>)
    requires w + (a + (b + c)) == u + (d + c)
    ensures u + (d + e) == w + a + (b + e)
  {
    assert w + (a + (b + c)) == (w + a + b) + c;
    assert u + (d + c) == (u + d) + c;
    Cancel(w + a + b, u + d, c);
    assert u + (d + e) == (u + d) + e;
    assert w + a + (b + e) == (w + a + b) + e;
  }

  lemma {:induction false} Cancel(a: seq<byte>, b: seq<byte>, c: seq<byte>)
    requires a + c == b + c
    ensures a == b
  {
    assert (a + c)[..|a|] == a && (b + c)[..|b|] == b;
  }

  /** The queue, with what is left of the packet at its end overwritten. */
  function Overwritten(queue: seq<seq<byte>>, packet: seq<byte>): seq<seq<byte>>
    requires queue != [] ==> |queue[|queue| - 1]| <= |packet|
  {
    if queue == [] then [] else queue[..|queue| - 1] + [packet[|packet| - |queue[|queue| - 1]|..]]
  }

  lemma {:induction false} MixedIs(net: Network, s: Socket, own: seq<byte>, reserved: seq<byte>, payload: seq<byte>)
    requires s.Valid() && |own| == |reserved| == RESERVED
    ensures var t, n := Flushed(net, With(s, own + payload)).socket, |own + payload|;
            && (t.queue != [] ==> |t.queue[|t.queue| - 1]| <= n)
            && t.wire + Flatten(Overwritten(t.queue, reserved + payload))
                 == s.wire + Flatten(s.queue) + Mixed(own, reserved, payload, TakenAtOnce(net, s, own + payload))
  {
    hide Flushed, Flatten;
    var packet := own + payload;
    LastIsLeft(net, With(s, packet));
    var t := Flushed(net, With(s, packet)).socket;
    if t.queue != [] {
      RestReplaced(s, t, packet, (reserved + payload)[TakenAtOnce(net, s, packet)..]);
    } else {
      NoneLeft(s, t, packet);
      assert Mixed(own, reserved, payload, |packet|) == packet;
    }
  }

  lemma {:induction false} NoneLeft(s: Socket, t: Socket, packet: seq<byte>)
    requires s.wire + Flatten(s.queue + [packet]) == t.wire + Flatten(t.queue) && t.queue == []
    ensures t.wire + Flatten([]) == s.wire + Flatten(s.queue) + packet
  {
    FlattenConcat(s.queue, [packet]);
    FlattenOne(packet);
    assert s.wire + (Flatten(s.queue) + packet) == s.wire + Flatten(s.queue) + packet;
  }

  /** The turn of the client itself: the packet is appended and sent as far as the socket takes it. */
  method OwnTurn(w: BufferWriter, pkt: array<byte>, size: nat, own: Stamp, net: Network, attempts: nat)
      returns (tried: nat, failed: bool)
    requires w.Valid() && w.Intact() && pkt !in w.Arrays() && |w.buffer| < w.maxQueueLength
    requires own.Valid() && own.tcp && RESERVED <= size <= pkt.Length
    modifies w, pkt
    ensures w.Valid() && pkt[RESERVED..] == old(pkt[RESERVED..]) && pkt[..RESERVED] == own.head
    ensures var packet := own.head + old(pkt[RESERVED..size]);
            Flushed(net, With(old(w.Pipe(attempts)), packet)) == Flushing(w.Actual(tried), failed)
    ensures LastOf(old(w.buffer) + [Packet(pkt, size, 0)], w.buffer)
  {
    hide Flushed, Contents, LastOf;
    ghost var rest, n := pkt[RESERVED..], size - RESERVED;
    ghost var packet := own.head + pkt[RESERVED..size];
    assert pkt[RESERVED..size] == rest[..n];
    WriteStamp(pkt, own);
    assert pkt[..size] == pkt[..RESERVED] + pkt[RESERVED..][..n];
    assert w.Intact();
    var _ := w.Append(pkt, size, 0);
    assert w.Actual(attempts) == With(old(w.Pipe(attempts)), packet);
    tried, failed := w.Flush(net, attempts);
  }

  /** The turns of the others: what is left of the packet at the end of the queue is overwritten. */
  method LaterTurns(w: BufferWriter, pkt: array<byte>, size: nat, later: seq<Stamp>, ghost payload: seq<byte>)
    requires w.Valid() && AllValid(later) && RESERVED <= size <= pkt.Length
    requires forall j | 0 <= j < |w.buffer| - 1 :: w.buffer[j].data != pkt
    requires w.buffer != [] ==> w.buffer[|w.buffer| - 1].data == pkt && w.buffer[|w.buffer| - 1].size == size
    requires payload == pkt[RESERVED..size]
    modifies pkt
    ensures w.Valid() && w.wire == old(w.wire) && w.buffer == old(w.buffer)
    ensures w.Held() == Overwritten(old(w.Held()), AllOn(old(pkt[..RESERVED]), later) + payload)
  {
    hide AllOn, Contents;
    ghost var was, n := w.Held(), |w.buffer| - 1;
    assert payload == pkt[RESERVED..][..size - RESERVED];
    WriteStamps(pkt, later);
    assert payload == pkt[RESERVED..size] by {
      assert pkt[RESERVED..size] == pkt[RESERVED..][..size - RESERVED];
    }
    if w.buffer != [] {
      var p := w.buffer[n];
      assert pkt[..size] == pkt[..RESERVED] + payload;
      assert pkt[p.writeIndex..size] == pkt[..size][p.writeIndex..];
      forall j | 0 <= j < n ensures w.Held()[j] == was[j] {
        assert w.buffer[j].data != pkt;
      }
      LastReplaced(was, w.Held(), pkt[..RESERVED] + payload);
    }
  }

  lemma {:induction false} LastReplaced(was: seq<seq<byte>>, held: seq<seq<byte>>, packet: seq<byte>)
    requires |was| == |held| > 0 && forall j | 0 <= j < |was| - 1 :: held[j] == was[j]
    requires var n := |was| - 1; |was[n]| <= |packet| && held[n] == packet[|packet| - |was[n]|..]
    ensures held == Overwritten(was, packet)
  {
    assert held == was[..|was| - 1] + [held[|was| - 1]];
  }

  /** Of the queue only the packet at its end is the one the later clients write to. */
  lemma {:induction false} OnlyLast(before: seq<Packet>, buffer: seq<Packet>, pkt: array<byte>, size: nat)
    requires LastOf(before + [Packet(pkt, size, 0)], buffer) && pkt !in ArraysIn(before)
    ensures forall j | 0 <= j < |buffer| - 1 :: buffer[j].data != pkt
    ensures buffer != [] ==> buffer[|buffer| - 1].data == pkt && buffer[|buffer| - 1].size == size
  {
    hide Refs;
    var all := before + [Packet(pkt, size, 0)];
    var d := |all| - |buffer|;
    forall j | 0 <= j < |buffer| ensures buffer[j].data == all[d + j].data && buffer[j].size == all[d + j].size {
      assert Refs(buffer)[j] == Refs(all)[d + j];
    }
  }

  /** The packet of a TCP client, with any backlog before it, and the turns of the clients after
      it: what the socket has taken, with what the queue holds at the end, is the backlog and then
      the mixed packet; the sends that follow move it on as it is. */
  method Fanout(w: BufferWriter, pkt: array<byte>, size: nat, own: Stamp, later: seq<Stamp>,
      net: Network, attempts: nat)
    requires w.Valid() && w.Intact() && pkt !in w.Arrays() && |w.buffer| < w.maxQueueLength
    requires own.Valid() && own.tcp && AllValid(later) && RESERVED <= size <= pkt.Length
    modifies w, pkt
    ensures w.Valid()
    ensures var s, payload := old(w.Pipe(attempts)), old(pkt[RESERVED..size]);
            var k := TakenAtOnce(net, s, own.head + payload);
            w.wire + Flatten(w.Held())
              == s.wire + Flatten(s.queue) + Mixed(own.head, AllOn(own.head, later), payload, k)
  {
    hide Flushed, AllOn, Contents, Overwritten, Mixed, TakenAtOnce;
    ghost var s, payload := w.Pipe(attempts), pkt[RESERVED..size];
    MixedIs(net, s, own.head, AllOn(own.head, later), payload);
    var tried, _ := OwnTurn(w, pkt, size, own, net, attempts);
    OnlyLast(old(w.buffer), w.buffer, pkt, size);
    LaterTurns(w, pkt, size, later, payload);
  }

  /** If the socket takes `k` bytes at once, the client gets its own packet exactly when what was left
      of the reserved bytes is the same in the end. */
  lemma {:induction false} SameRest(own: seq<byte>, reserved: seq<byte>, payload: seq<byte>, k: nat)
    requires |own| == |reserved| == RESERVED && k <= RESERVED + |payload|
    ensures Mixed(own, reserved, payload, k) == own + payload <==> k >= RESERVED || own[k..] == reserved[k..]
  {
    var m, all := Mixed(own, reserved, payload, k), RESERVED + |payload|;
    if k < RESERVED {
      assert forall j | k <= j < RESERVED :: m[j] == reserved[j] && (own + payload)[j] == own[j];
      if m == own + payload {
        assert forall j | k <= j < RESERVED :: own[j] == reserved[j];
        assert forall j | 0 <= j < RESERVED - k :: own[k..][j] == reserved[k..][j];
      }
      if own[k..] == reserved[k..] {
        assert forall j | k <= j < RESERVED :: own[j] == own[k..][j - k] && reserved[j] == reserved[k..][j - k];
        assert forall j | 0 <= j < all :: m[j] == (own + payload)[j];
      }
    } else {
      assert forall j | 0 <= j < all :: m[j] == (own + payload)[j];
    }
  }

  /** A socket that takes nothing takes nothing of the packet. */
  lemma {:induction false} NoneAtOnce(s: Socket, packet: seq<byte>)
    requires s.Valid() && packet != []
    ensures TakenAtOnce(_ => Took(0), s, packet) == 0
  {
    var net: Network := _ => Took(0);
    FlushStep(net, With(s, packet));
    assert Flushed(net, With(s, packet)).socket.queue == s.queue + [packet];
  }

  /** The client gets its own packet whatever its socket takes and when, with any backlog, if and only
      if the later clients leave the reserved bytes as it has written them. */
  lemma {:induction false} OwnPacket(s: Socket, own: seq<byte>, reserved: seq<byte>, payload: seq<byte>)
    requires s.Valid() && |own| == |reserved| == RESERVED
    ensures (forall net: Network ::
              Mixed(own, reserved, payload, TakenAtOnce(net, s, own + payload)) == own + payload)
            <==> reserved == own
  {
    hide Mixed, TakenAtOnce;
    if reserved == own {
      forall net: Network ensures Mixed(own, reserved, payload, TakenAtOnce(net, s, own + payload)) == own + payload {
        SameRest(own, reserved, payload, TakenAtOnce(net, s, own + payload));
      }
    } else {
      var net: Network := _ => Took(0);
      NoneAtOnce(s, own + payload);
      SameRest(own, reserved, payload, 0);
      assert own[0..] == own && reserved[0..] == reserved;
    }
  }

  /** Two clients over TCP, with the channel numbers 0 and 2, and a socket of the first that takes
      nothing at first: it is sent the packet of the second. */
  lemma {:induction false} OthersPacket(s: Socket, mine: RtpHeader, others: RtpHeader, payload: seq<byte>)
    requires s.Valid() && mine.Valid() && others.Valid()
    ensures var n := RTP_HEADER + |payload|;
            var own, later := TcpHead(0, n) + mine.Encode(), Stamp(true, TcpHead(2, n) + others.Encode());
            var m := Mixed(own, AllOn(own, [later]), payload, TakenAtOnce(_ => Took(0), s, own + payload));
            m == later.head + payload != own + payload
  {
    hide TakenAtOnce, RtpHeader.Encode, BigEndian;
    var n := RTP_HEADER + |payload|;
    var own, later := TcpHead(0, n) + mine.Encode(), Stamp(true, TcpHead(2, n) + others.Encode());
    NoneAtOnce(s, own + payload);
    assert [later][..0] == [] && AllOn(own, []) == own;
    assert AllOn(own, [later]) == later.head;
    assert (own + payload)[1] == 0 && (later.head + payload)[1] == 2;
  }

  // -- The turns of all clients -------------------------------------------------------------

  lemma {:induction false} AllOnConcat(reserved: seq<byte>, a: seq<Stamp>, b: seq<Stamp>)
    requires AllValid(a) && AllValid(b) && |reserved| == RESERVED
    ensures AllOn(reserved, a + b) == AllOn(AllOn(reserved, a), b)
  {
    hide Stamp.On;
    if b == [] {
      assert a + b == a;
    } else {
      assert (a + b)[..|a + b| - 1] == a + b[..|b| - 1];
      AllOnConcat(reserved, a, b[..|b| - 1]);
    }
  }

  /** A client over TCP overwrites all that those before it have written, so what the reserved bytes
      are in the end depends on it and on those after it. */
  lemma {:induction false} FromOwnTurn(reserved: seq<byte>, before: seq<Stamp>, own: Stamp, later: seq<Stamp>)
    requires AllValid(before) && AllValid(later) && own.Valid() && own.tcp && |reserved| == RESERVED
    ensures AllOn(reserved, before + [own] + later) == AllOn(own.head, later)
  {
    AllOnConcat(reserved, before + [own], later);
    AllOnConcat(reserved, before, [own]);
    assert [own][..0] == [];
    assert AllOn(AllOn(reserved, before), [own]) == own.On(AllOn(AllOn(reserved, before), []));
  }
}
