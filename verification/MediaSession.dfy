/** The session: its clients in the order of their sockets, and the fan-out of one packet. */
module MediaSessions {
  import opened Bytes
  import opened RtpPacket
  import opened RtpState
  import opened RtpConnections
  import opened BufferWriters
  import opened SharedPacket

  /** The clients that a packet of this session reaches: all of them, or over multicast only the
      first in the order of the map that has a connection. */
  ghost predicate Reached(clients: map<int, RtpConnection?>, isMulticast: bool, k: int) {
    && k in clients && clients[k] != null
    && (isMulticast ==> forall j | j in clients && clients[j] != null :: k <= j)
  }

  /** Over multicast a packet is offered to one client at most, so it is sent at most once. */
  lemma {:induction false} MulticastSendsOnce(clients: map<int, RtpConnection?>, j: int, k: int)
    requires Reached(clients, true, j) && Reached(clients, true, k)
    ensures j == k
  {
  }

  lemma {:induction false} NonEmpty(s: set<int>)
    ensures s == {} || exists x :: x in s
  {
    if !exists x :: x in s {
      assert s == {};
    }
  }

  lemma {:induction false} LeastExists(s: set<int>) returns (m: int)
    requires s != {}
    ensures m in s && forall x | x in s :: m <= x
  {
    NonEmpty(s);
    m :| m in s;
    if s != {m} {
      var t := s - {m};
      var n := LeastExists(t);
      assert forall x | x in s :: x == m || x in t;
      if n < m {
        m := n;
      }
    }
  }

  /** The loop has come to the clients in `rest`: those before them have been offered the packet. */
  ghost predicate Upto(clients: map<int, RtpConnection?>, isMulticast: bool, rest: set<int>) {
    && rest <= clients.Keys
    && (forall j, k | j in clients && k in rest && j !in rest :: j < k)
    && (isMulticast ==> forall j | j in clients && j !in rest :: clients[j] == null)
  }

  ghost predicate ExactlyReached(clients: map<int, RtpConnection?>, isMulticast: bool, rest: set<int>) {
    forall k | k in clients && clients[k] != null :: k !in rest <==> Reached(clients, isMulticast, k)
  }

  lemma {:induction false} OneMore(clients: map<int, RtpConnection?>, isMulticast: bool, rest: set<int>, k: int)
    requires Upto(clients, isMulticast, rest) && k in rest && forall x | x in rest :: k <= x
    ensures k in clients && forall j | j in clients && j !in rest - {k} :: j <= k
    ensures clients[k] == null || !isMulticast ==> Upto(clients, isMulticast, rest - {k})
    ensures clients[k] != null && isMulticast ==> ExactlyReached(clients, isMulticast, rest - {k})
    ensures rest == rest - {k} + {k}
  {
  }

  lemma {:induction false} NoneYet(clients: map<int, RtpConnection?>, isMulticast: bool)
    ensures Upto(clients, isMulticast, clients.Keys)
  {
  }

  lemma {:induction false} NoMore(clients: map<int, RtpConnection?>, isMulticast: bool)
    requires Upto(clients, isMulticast, {})
    ensures ExactlyReached(clients, isMulticast, {})
  {
  }

  /** From one snapshot to the next, each client the session reaches has been offered the packet
      once, and no other has changed. */
  ghost predicate OfferedOnce(clients: map<int, RtpConnection?>, isMulticast: bool, before: map<int, Conn>,
                              after: map<int, Conn>, ch: nat, frameType: nat, last: nat, ts: nat, payload: seq<byte>)
    requires ch < CHANNELS && last < 2 && ts < TWO_32
  {
    && before.Keys == after.Keys
    && forall k | k in before ::
         && k in clients && clients[k] != null && before[k].Valid()
         && after[k] == if Reached(clients, isMulticast, k)
              then Offered(clients[k].network, before[k], ch, frameType, last, ts, payload)
              else before[k]
  }

  /** The same, but for the clients in `rest`. */
  ghost predicate OfferedExcept(clients: map<int, RtpConnection?>, before: map<int, Conn>, after: map<int, Conn>,
                                rest: set<int>, ch: nat, frameType: nat, last: nat, ts: nat, payload: seq<byte>)
    requires ch < CHANNELS && last < 2 && ts < TWO_32
  {
    && before.Keys == after.Keys
    && forall k | k in before ::
         && k in clients && clients[k] != null && before[k].Valid()
         && after[k] == if k in rest then before[k]
              else Offered(clients[k].network, before[k], ch, frameType, last, ts, payload)
  }

  lemma {:induction false} OneMoreOffered(clients: map<int, RtpConnection?>, before: map<int, Conn>,
      mid: map<int, Conn>, after: map<int, Conn>, rest: set<int>, k: int,
      ch: nat, frameType: nat, last: nat, ts: nat, payload: seq<byte>)
    requires ch < CHANNELS && last < 2 && ts < TWO_32
    requires OfferedExcept(clients, before, mid, rest + {k}, ch, frameType, last, ts, payload)
    requires k in mid && k !in rest && mid[k].Valid() && k in clients && clients[k] != null
    requires after == mid[k := Offered(clients[k].network, mid[k], ch, frameType, last, ts, payload)]
    ensures OfferedExcept(clients, before, after, rest, ch, frameType, last, ts, payload)
  {
    hide Offered;
  }

  lemma {:induction false} AllReached(clients: map<int, RtpConnection?>, isMulticast: bool, before: map<int, Conn>,
      after: map<int, Conn>, rest: set<int>, ch: nat, frameType: nat, last: nat, ts: nat, payload: seq<byte>)
    requires ch < CHANNELS && last < 2 && ts < TWO_32
    requires OfferedExcept(clients, before, after, rest, ch, frameType, last, ts, payload)
    requires ExactlyReached(clients, isMulticast, rest)
    ensures OfferedOnce(clients, isMulticast, before, after, ch, frameType, last, ts, payload)
  {
    hide Offered, Reached;
  }

  // -- What the clients write into the packet they share -------------------------------------

  /** What the turn of a client writes into the reserved bytes of a packet of `size` bytes. */
  function StampOf(c: Conn, ch: nat, frameType: nat, last: nat, ts: nat, size: nat): (s: seq<Stamp>)
    requires c.Valid() && ch < CHANNELS && last < 2 && ts < TWO_32 && size >= TCP_HEAD
    ensures AllValid(s) && |s| <= 1
  {
    var g := Gated(c, frameType);
    if !g.Active(ch) then []
    else
      [Stamp(c.transport.OverTcp? && !c.isClosed,
             TcpHead(c.channels[ch].rtpChannel, size - TCP_HEAD) + Numbered(g, ch, last, ts).channels[ch].header.Encode())]
  }

  ghost predicate Known(before: map<int, Conn>, order: seq<int>) {
    forall j | 0 <= j < |order| :: order[j] in before && before[order[j]].Valid()
  }

  /** ... and the turns of the clients in `order`. */
  ghost function Stamps(before: map<int, Conn>, order: seq<int>, ch: nat, frameType: nat, last: nat, ts: nat, size: nat):
      (s: seq<Stamp>)
    requires ch < CHANNELS && last < 2 && ts < TWO_32 && size >= TCP_HEAD
    requires Known(before, order)
    ensures AllValid(s)
  {
    if order == [] then []
    else
      Stamps(before, order[..|order| - 1], ch, frameType, last, ts, size)
      + StampOf(before[order[|order| - 1]], ch, frameType, last, ts, size)
  }

  predicate IsGreatest(m: int, s: set<int>) {
    m in s && forall x | x in s :: x <= m
  }

  lemma {:induction false} GreatestExists(s: set<int>) returns (m: int)
    requires s != {}
    ensures IsGreatest(m, s)
  {
    NonEmpty(s);
    m :| m in s;
    if s != {m} {
      var t := s - {m};
      var n := GreatestExists(t);
      assert forall x | x in s :: x == m || x in t;
      if m < n {
        m := n;
      }
    }
  }

  lemma {:induction false} SomeGreatest(s: set<int>)
    requires s != {}
    ensures exists m :: IsGreatest(m, s)
  {
    hide IsGreatest;
    var m := GreatestExists(s);
  }

  /** The order of the map. */
  ghost function Sorted(keys: set<int>): (order: seq<int>)
    ensures forall k :: k in order <==> k in keys
    ensures forall i, j | 0 <= i < j < |order| :: order[i] < order[j]
    decreases |keys|
  {
    if keys == {} then []
    else
      SomeGreatest(keys);
      var m :| IsGreatest(m, keys);
      Sorted(keys - {m}) + [m]
  }

  lemma {:induction false} SortedSnoc(keys: set<int>, k: int)
    requires forall x | x in keys :: x < k
    ensures Sorted(keys + {k}) == Sorted(keys) + [k]
  {
    assert keys + {k} - {k} == keys;
  }

  /** The clients that have had their turns when those in `rest` are still to come. */
  ghost function Done(clients: map<int, RtpConnection?>, rest: set<int>): set<int> {
    set k | k in clients && clients[k] != null && k !in rest
  }

  ghost function ReachedKeys(clients: map<int, RtpConnection?>, isMulticast: bool): set<int> {
    set k | k in clients && Reached(clients, isMulticast, k)
  }

  /** In the order of the map, each client that the session reaches writes its stamp. */
  ghost predicate Stamped(before: map<int, Conn>, keys: set<int>, ch: nat, frameType: nat, last: nat, ts: nat,
      size: nat, was: seq<byte>, now: seq<byte>)
    requires ch < CHANNELS && last < 2 && ts < TWO_32 && size >= TCP_HEAD && |was| == RESERVED
  {
    && Known(before, Sorted(keys))
    && now == AllOn(was, Stamps(before, Sorted(keys), ch, frameType, last, ts, size))
  }

  lemma {:induction false} OneMoreStamped(before: map<int, Conn>, keys: set<int>, k: int, ch: nat, frameType: nat,
      last: nat, ts: nat, size: nat, was: seq<byte>, mid: seq<byte>, now: seq<byte>)
    requires ch < CHANNELS && last < 2 && ts < TWO_32 && size >= TCP_HEAD && |was| == |mid| == RESERVED
    requires Stamped(before, keys, ch, frameType, last, ts, size, was, mid)
    requires (forall x | x in keys :: x < k) && k in before && before[k].Valid()
    requires now == AllOn(mid, StampOf(before[k], ch, frameType, last, ts, size))
    ensures Stamped(before, keys + {k}, ch, frameType, last, ts, size, was, now)
  {
    hide StampOf, AllOn, Sorted, Stamps, Known;
    SortedSnoc(keys, k);
    StampsSnoc(before, Sorted(keys), k, ch, frameType, last, ts, size);
    AllOnConcat(was, Stamps(before, Sorted(keys), ch, frameType, last, ts, size),
                StampOf(before[k], ch, frameType, last, ts, size));
  }

  lemma {:induction false} StampsSnoc(before: map<int, Conn>, order: seq<int>, k: int, ch: nat, frameType: nat,
      last: nat, ts: nat, size: nat)
    requires ch < CHANNELS && last < 2 && ts < TWO_32 && size >= TCP_HEAD
    requires Known(before, order) && k in before && before[k].Valid()
    ensures Known(before, order + [k])
    ensures Stamps(before, order + [k], ch, frameType, last, ts, size)
      == Stamps(before, order, ch, frameType, last, ts, size) + StampOf(before[k], ch, frameType, last, ts, size)
  {
    hide StampOf;
    assert (order + [k])[..|order|] == order;
  }

  lemma {:induction false} NoneStamped(before: map<int, Conn>, ch: nat, frameType: nat, last: nat, ts: nat, size: nat,
      was: seq<byte>)
    requires ch < CHANNELS && last < 2 && ts < TWO_32 && size >= TCP_HEAD && |was| == RESERVED
    ensures Stamped(before, {}, ch, frameType, last, ts, size, was, was)
  {
    assert Sorted({}) == [] && AllOn(was, []) == was;
  }

  /** What is in the reserved bytes when all clients have had their turns is, for a client over TCP
      that is sent the packet, what the clients after it have made of its own stamp; for the last one
      it is its own. */
  lemma {:induction false} LaterStamps(before: map<int, Conn>, order: seq<int>, i: nat, ch: nat, frameType: nat,
      last: nat, ts: nat, size: nat, was: seq<byte>)
    requires ch < CHANNELS && last < 2 && ts < TWO_32 && size >= TCP_HEAD && |was| == RESERVED && i < |order|
    requires Known(before, order)
    requires var c := before[order[i]]; Gated(c, frameType).Active(ch) && c.transport.OverTcp? && !c.isClosed
    ensures var own := StampOf(before[order[i]], ch, frameType, last, ts, size)[0];
            AllOn(was, Stamps(before, order, ch, frameType, last, ts, size))
              == AllOn(own.head, Stamps(before, order[i + 1..], ch, frameType, last, ts, size))
  {
    hide StampOf, AllOn;
    var own := StampOf(before[order[i]], ch, frameType, last, ts, size);
    assert own == [own[0]] && own[0].tcp by { OneStamp(before[order[i]], ch, frameType, last, ts, size); }
    assert order == order[..i + 1] + order[i + 1..];
    StampsConcat(before, order[..i + 1], order[i + 1..], ch, frameType, last, ts, size);
    assert order[..i + 1][..i] == order[..i];
    FromOwnTurn(was, Stamps(before, order[..i], ch, frameType, last, ts, size), own[0],
                Stamps(before, order[i + 1..], ch, frameType, last, ts, size));
  }

  lemma {:induction false} OneStamp(c: Conn, ch: nat, frameType: nat, last: nat, ts: nat, size: nat)
    requires c.Valid() && ch < CHANNELS && last < 2 && ts < TWO_32 && size >= TCP_HEAD
    requires Gated(c, frameType).Active(ch) && c.transport.OverTcp? && !c.isClosed
    ensures var s := StampOf(c, ch, frameType, last, ts, size); s == [s[0]] && s[0].tcp
  {
  }

  lemma {:induction false} StampsConcat(before: map<int, Conn>, a: seq<int>, b: seq<int>, ch: nat, frameType: nat,
      last: nat, ts: nat, size: nat)
    requires ch < CHANNELS && last < 2 && ts < TWO_32 && size >= TCP_HEAD
    requires Known(before, a) && Known(before, b)
    ensures Known(before, a + b)
    ensures Stamps(before, a + b, ch, frameType, last, ts, size)
      == Stamps(before, a, ch, frameType, last, ts, size) + Stamps(before, b, ch, frameType, last, ts, size)
    decreases |b|
  {
    hide StampOf, Stamps;
    if b == [] {
      assert a + b == a;
      NoStamps(before, ch, frameType, last, ts, size);
    } else {
      var init, k := b[..|b| - 1], b[|b| - 1];
      assert b == init + [k] && a + b == (a + init) + [k];
      StampsConcat(before, a, init, ch, frameType, last, ts, size);
      StampsSnoc(before, a + init, k, ch, frameType, last, ts, size);
      StampsSnoc(before, init, k, ch, frameType, last, ts, size);
    }
  }

  lemma {:induction false} NoStamps(before: map<int, Conn>, ch: nat, frameType: nat, last: nat, ts: nat, size: nat)
    requires ch < CHANNELS && last < 2 && ts < TWO_32 && size >= TCP_HEAD
    ensures Stamps(before, [], ch, frameType, last, ts, size) == []
  {
  }

  lemma {:induction false} OneMoreDone(clients: map<int, RtpConnection?>, rest: set<int>, k: int)
    requires k in clients && k !in rest && forall j | j in clients && j !in rest :: j <= k
    ensures clients[k] != null ==> Done(clients, rest) == Done(clients, rest + {k}) + {k}
    ensures clients[k] == null ==> Done(clients, rest) == Done(clients, rest + {k})
    ensures forall x | x in Done(clients, rest + {k}) :: x < k
  {
  }

  lemma {:induction false} NotYetOffered(clients: map<int, RtpConnection?>, before: map<int, Conn>, mid: map<int, Conn>,
      rest: set<int>, k: int, ch: nat, frameType: nat, last: nat, ts: nat, payload: seq<byte>)
    requires ch < CHANNELS && last < 2 && ts < TWO_32 && k in mid
    requires OfferedExcept(clients, before, mid, rest + {k}, ch, frameType, last, ts, payload)
    ensures k in before && before[k].Valid() && mid[k] == before[k]
  {
    hide Offered;
  }

  lemma {:induction false} AllDone(clients: map<int, RtpConnection?>, isMulticast: bool, rest: set<int>)
    ensures Done(clients, clients.Keys) == {}
    ensures ExactlyReached(clients, isMulticast, rest) ==> Done(clients, rest) == ReachedKeys(clients, isMulticast)
  {
  }

  class MediaSession {
    var clients: map<int, RtpConnection?>
    var isMulticast: bool

    /** The connections and their write queues. */
    ghost function Connections(): set<object>
      reads this
    {
      (set k | k in clients && clients[k] != null :: clients[k] as object)
      + (set k | k in clients && clients[k] != null :: clients[k].writeBuffer as object)
    }

    /** The packets in the queues. */
    ghost function Arrays(): set<array<byte>>
      reads this, Connections()
    {
      set k, a | k in clients && clients[k] != null && a in clients[k].writeBuffer.Arrays() :: a
    }

    /** Each socket has a connection object of its own, and that a queue of its own. */
    ghost predicate Valid()
      reads this, Connections()
    {
      && (forall k | k in clients && clients[k] != null :: clients[k].Valid())
      && (forall j, k | j in clients && k in clients && clients[j] != null && clients[k] != null
            && clients[j].writeBuffer == clients[k].writeBuffer :: j == k)
    }

    /** No later client in the order of the map has a connection. */
    ghost predicate Last(k: int)
      reads this
    {
      && k in clients && clients[k] != null
      && forall j | j in clients && clients[j] != null :: j <= k
    }

    /** What the last client is sent, or owed, is what was queued for it. */
    ghost predicate LastIntact()
      requires Valid()
      reads this, Connections(), Arrays()
    {
      forall k | Last(k) :: clients[k].Intact()
    }

    ghost function ClientState(k: int): (c: Conn)
      requires Valid() && k in clients && clients[k] != null
      reads this, Connections()
      ensures c.Valid()
    {
      clients[k].State()
    }

    constructor ()
      ensures clients == map[] && !isMulticast && Valid()
    {
      clients, isMulticast := map[], false;
    }

    method StartMulticast()
      requires Valid()
      modifies this
      ensures Valid() && isMulticast && clients == old(clients)
    {
      isMulticast := true;
    }

    method AddClient(sockfd: int, conn: RtpConnection) returns (added: bool)
      requires Valid() && conn.Valid()
      requires forall k | k in clients && clients[k] != null && clients[k].writeBuffer == conn.writeBuffer :: k == sockfd
      modifies this
      ensures Valid() && isMulticast == old(isMulticast)
      ensures added == (sockfd !in old(clients))
      ensures clients == if added then old(clients)[sockfd := conn] else old(clients)
    {
      added := sockfd !in clients;
      if added {
        clients := clients[sockfd := conn];
      }
    }

    method RemoveClient(sockfd: int)
      requires Valid()
      modifies this
      ensures Valid() && clients == old(clients) - {sockfd} && isMulticast == old(isMulticast)
    {
      clients := clients - {sockfd};
    }

    /** A snapshot of the clients. */
    ghost function Snapshot(): (m: map<int, Conn>)
      requires Valid()
      reads this, Connections()
      ensures forall k :: k in m <==> k in clients && clients[k] != null
      ensures forall k | k in m :: m[k] == ClientState(k) && m[k].Valid()
    {
      map k | k in clients && clients[k] != null :: ClientState(k)
    }

    /** One packet for one client; the others do not change, and keep what they are owed as long as
        the packet is not in their queues. */
    method OfferTo(k: int, channelId: nat, frameType: nat, rtpPkt: array<byte>, pktSize: nat, last: nat, ts: nat)
      requires Valid() && k in clients && clients[k] != null && channelId < CHANNELS && last < 2 && ts < TWO_32
      requires TCP_HEAD + RTP_HEADER <= pktSize <= rtpPkt.Length
      modifies clients[k], clients[k].writeBuffer, rtpPkt
      ensures Valid()
      ensures rtpPkt[TCP_HEAD + RTP_HEADER..] == old(rtpPkt[TCP_HEAD + RTP_HEADER..])
      ensures rtpPkt[..RESERVED]
        == AllOn(old(rtpPkt[..RESERVED]), StampOf(old(ClientState(k)), channelId, frameType, last, ts, pktSize))
      ensures ClientState(k) == Offered(clients[k].network, old(ClientState(k)), channelId, frameType, last, ts,
                                        old(rtpPkt[TCP_HEAD + RTP_HEADER..pktSize]))
      ensures forall j | j in clients && clients[j] != null && j != k ::
        ClientState(j) == old(ClientState(j)) && clients[j].writeBuffer.Arrays() == old(clients[j].writeBuffer.Arrays())
      ensures forall j | j in clients && clients[j] != null && rtpPkt !in old(clients[j].writeBuffer.Arrays()) ::
        old(clients[j].Intact()) ==> clients[j].Intact()
    {
      hide Offered, RtpConnection.State, StampOf, AllOn;
      assert forall j | j in clients && clients[j] != null && j != k ::
        clients[j] != clients[k] && clients[j].writeBuffer != clients[k].writeBuffer;
      Offer(clients[k], channelId, frameType, rtpPkt, pktSize, last, ts);
      forall j | j in clients && clients[j] != null && j != k && rtpPkt !in old(clients[j].writeBuffer.Arrays())
        ensures old(clients[j].Intact()) ==> clients[j].Intact()
      {
        assert old(clients[j].writeBuffer.Intact()) ==> clients[j].writeBuffer.Intact();
      }
    }

    /** ... as a change of the snapshot. */
    method OfferOne(k: int, channelId: nat, frameType: nat, rtpPkt: array<byte>, pktSize: nat, last: nat, ts: nat)
      requires Valid() && k in clients && clients[k] != null && channelId < CHANNELS && last < 2 && ts < TWO_32
      requires TCP_HEAD + RTP_HEADER <= pktSize <= rtpPkt.Length
      modifies clients[k], clients[k].writeBuffer, rtpPkt
      ensures Valid()
      ensures rtpPkt[TCP_HEAD + RTP_HEADER..] == old(rtpPkt[TCP_HEAD + RTP_HEADER..])
      ensures rtpPkt[..RESERVED]
        == AllOn(old(rtpPkt[..RESERVED]), StampOf(old(Snapshot())[k], channelId, frameType, last, ts, pktSize))
      ensures Snapshot() == old(Snapshot())[k := Offered(clients[k].network, old(Snapshot())[k], channelId, frameType,
                                                         last, ts, old(rtpPkt[TCP_HEAD + RTP_HEADER..pktSize]))]
      ensures forall j | j in clients && clients[j] != null && j != k ::
        clients[j].writeBuffer.Arrays() == old(clients[j].writeBuffer.Arrays())
      ensures forall j | j in clients && clients[j] != null && rtpPkt !in old(clients[j].writeBuffer.Arrays()) ::
        old(clients[j].Intact()) ==> clients[j].Intact()
    {
      hide Offered, ClientState, Snapshot, Valid, RtpConnection.Intact, RtpConnection.Valid, BufferWriter.Arrays, StampOf,
           AllOn;
      ghost var was, payload := Snapshot(), rtpPkt[TCP_HEAD + RTP_HEADER..pktSize];
      OfferTo(k, channelId, frameType, rtpPkt, pktSize, last, ts);
      ghost var now := Snapshot();
      forall j | j in was && j != k ensures now[j] == was[j] {
        assert ClientState(j) == old(ClientState(j));
      }
      assert now == was[k := Offered(clients[k].network, was[k], channelId, frameType, last, ts, payload)];
    }

    ghost predicate Unqueued(rest: set<int>, rtpPkt: array<byte>)
      reads this, Connections()
    {
      forall k | k in rest && k in clients && clients[k] != null :: rtpPkt !in clients[k].writeBuffer.Arrays()
    }

    lemma {:induction false} NoneOffered(rtpPkt: array<byte>, ch: nat, frameType: nat, last: nat, ts: nat,
        payload: seq<byte>)
      requires Valid() && ch < CHANNELS && last < 2 && ts < TWO_32 && rtpPkt !in Arrays()
      ensures Unqueued(clients.Keys, rtpPkt)
      ensures OfferedExcept(clients, Snapshot(), Snapshot(), clients.Keys, ch, frameType, last, ts, payload)
    {
      hide Offered, RtpConnection.State;
      forall k | k in clients && clients[k] != null ensures rtpPkt !in clients[k].writeBuffer.Arrays() {
        assert rtpPkt in clients[k].writeBuffer.Arrays() ==> rtpPkt in Arrays();
      }
    }

    lemma {:induction false} NoConnection(k: int, before: map<int, Conn>, rest: set<int>, rtpPkt: array<byte>,
        ch: nat, frameType: nat, last: nat, ts: nat, payload: seq<byte>)
      requires Valid() && ch < CHANNELS && last < 2 && ts < TWO_32 && k in clients && clients[k] == null
      requires Unqueued(rest, rtpPkt)
      requires OfferedExcept(clients, before, Snapshot(), rest, ch, frameType, last, ts, payload)
      ensures Unqueued(rest - {k}, rtpPkt)
      ensures OfferedExcept(clients, before, Snapshot(), rest - {k}, ch, frameType, last, ts, payload)
    {
      hide Offered, RtpConnection.State;
    }

    /** One round of the loop over the clients. */
    method OfferNext(k: int, rest: set<int>, channelId: nat, frameType: nat, rtpPkt: array<byte>, pktSize: nat,
        last: nat, ts: nat, ghost before: map<int, Conn>, ghost was: seq<byte>)
      requires Valid() && k in clients && clients[k] != null && channelId < CHANNELS && last < 2 && ts < TWO_32
      requires TCP_HEAD + RTP_HEADER <= pktSize <= rtpPkt.Length
      requires k !in rest && Unqueued(rest + {k}, rtpPkt)
      requires |was| == RESERVED
      requires Stamped(before, Done(clients, rest + {k}), channelId, frameType, last, ts, pktSize, was, rtpPkt[..RESERVED])
      requires forall j | j in clients && j !in rest :: j <= k
      requires OfferedExcept(clients, before, Snapshot(), rest + {k}, channelId, frameType, last, ts,
                             rtpPkt[TCP_HEAD + RTP_HEADER..pktSize])
      modifies clients[k], clients[k].writeBuffer, rtpPkt
      ensures Valid() && Unqueued(rest, rtpPkt)
      ensures OfferedExcept(clients, before, Snapshot(), rest, channelId, frameType, last, ts,
                            old(rtpPkt[TCP_HEAD + RTP_HEADER..pktSize]))
      ensures rtpPkt[TCP_HEAD + RTP_HEADER..] == old(rtpPkt[TCP_HEAD + RTP_HEADER..])
      ensures rtpPkt[TCP_HEAD + RTP_HEADER..pktSize] == old(rtpPkt[TCP_HEAD + RTP_HEADER..pktSize])
      ensures old(LastIntact()) ==> LastIntact()
      ensures Stamped(before, Done(clients, rest), channelId, frameType, last, ts, pktSize, was, rtpPkt[..RESERVED])
    {
      hide Stamped, AllOn, StampOf, Offered, OfferedExcept, ClientState, Snapshot, RtpConnection.Intact,
           RtpConnection.Valid, BufferWriter.Arrays;
      ghost var first, mid, payload := rtpPkt[..], Snapshot(), rtpPkt[TCP_HEAD + RTP_HEADER..pktSize];
      NotYetOffered(clients, before, mid, rest, k, channelId, frameType, last, ts, payload);
      OfferOne(k, channelId, frameType, rtpPkt, pktSize, last, ts);
      SameSlice(first, rtpPkt[..], TCP_HEAD + RTP_HEADER, pktSize);
      OneMoreOffered(clients, before, mid, Snapshot(), rest, k, channelId, frameType, last, ts, payload);
      OneMoreDone(clients, rest, k);
      OneMoreStamped(before, Done(clients, rest + {k}), k, channelId, frameType, last, ts, pktSize, was,
                     first[..RESERVED], rtpPkt[..RESERVED]);
      if old(LastIntact()) {
        forall j | Last(j) ensures clients[j].Intact() {
          assert j in rest + {k} && rtpPkt !in old(clients[j].writeBuffer.Arrays());
          assert old(Last(j)) && old(clients[j].Intact());
        }
      }
    }

    /** The callback of addMediaSource: one packet, `pktSize` bytes of a buffer that all clients
        share. What the last client is owed stays as it is; it is the one whose packet no other
        client writes its header into. */
    method SendFrame(channelId: nat, frameType: nat, rtpPkt: array<byte>, pktSize: nat, last: nat, ts: nat)
      requires Valid() && channelId < CHANNELS && last < 2 && ts < TWO_32
      requires TCP_HEAD + RTP_HEADER <= pktSize <= rtpPkt.Length && rtpPkt !in Arrays()
      modifies Connections(), rtpPkt
      ensures Valid() && clients == old(clients) && isMulticast == old(isMulticast)
      ensures rtpPkt[TCP_HEAD + RTP_HEADER..] == old(rtpPkt[TCP_HEAD + RTP_HEADER..])
      ensures OfferedOnce(clients, isMulticast, old(Snapshot()), Snapshot(), channelId, frameType, last, ts,
                          old(rtpPkt[TCP_HEAD + RTP_HEADER..pktSize]))
      ensures Stamped(old(Snapshot()), ReachedKeys(clients, isMulticast), channelId, frameType, last, ts, pktSize,
                      old(rtpPkt[..RESERVED]), rtpPkt[..RESERVED])
      ensures old(LastIntact()) ==> LastIntact()
    {
      hide Stamped, Done, ReachedKeys, Offered, ClientState, LastIntact, Valid, Snapshot, Unqueued, OfferedExcept,
           OfferedOnce, Arrays, Upto, ExactlyReached;
      var rest := clients.Keys;
      ghost var payload, before := rtpPkt[TCP_HEAD + RTP_HEADER..pktSize], Snapshot();
      NoneOffered(rtpPkt, channelId, frameType, last, ts, payload);
      NoneYet(clients, isMulticast);
      ghost var was := rtpPkt[..RESERVED];
      AllDone(clients, isMulticast, rest);
      NoneStamped(before, channelId, frameType, last, ts, pktSize, was);
      while rest != {}
        invariant Valid() && Unqueued(rest, rtpPkt) && Upto(clients, isMulticast, rest)
        invariant rtpPkt[TCP_HEAD + RTP_HEADER..] == old(rtpPkt[TCP_HEAD + RTP_HEADER..])
        invariant rtpPkt[TCP_HEAD + RTP_HEADER..pktSize] == payload
        invariant OfferedExcept(clients, before, Snapshot(), rest, channelId, frameType, last, ts, payload)
        invariant old(LastIntact()) ==> LastIntact()
        invariant Stamped(before, Done(clients, rest), channelId, frameType, last, ts, pktSize, was, rtpPkt[..RESERVED])
        decreases rest
      {
        ghost var least := LeastExists(rest);
        var k :| k in rest && forall x | x in rest :: k <= x;
        OneMore(clients, isMulticast, rest, k);
        if clients[k] != null {
          OfferNext(k, rest - {k}, channelId, frameType, rtpPkt, pktSize, last, ts, before, was);
        } else {
          OneMoreDone(clients, rest - {k}, k);
          NoConnection(k, before, rest, rtpPkt, channelId, frameType, last, ts, payload);
        }
        rest := rest - {k};
        if clients[k] != null && isMulticast {
          break;
        }
      }
      if rest == {} && !ExactlyReached(clients, isMulticast, rest) {
        NoMore(clients, isMulticast);
      }
      AllDone(clients, isMulticast, rest);
      AllReached(clients, isMulticast, before, Snapshot(), rest, channelId, frameType, last, ts, payload);
    }
  }

  lemma {:induction false} SameSlice(a: seq<byte>, b: seq<byte>, from: nat, to: nat)
    requires from <= to <= |a| == |b| && a[from..] == b[from..]
    ensures a[from..to] == b[from..to]
  {
    assert a[from..to] == a[from..][..to - from] && b[from..to] == b[from..][..to - from];
  }

  lemma {:induction false} OneOn(reserved: seq<byte>, s: seq<Stamp>)
    requires AllValid(s) && |s| <= 1 && |reserved| == RESERVED
    ensures AllOn(reserved, s) == if s == [] then reserved else s[0].On(reserved)
  {
    hide Stamp.On;
    if s != [] {
      assert s[..0] == [];
      assert AllOn(reserved, s[..0]) == reserved;
    }
  }

  lemma {:induction false} HeadChanged(a: seq<byte>, b: seq<byte>)
    requires |a| == |b| >= RESERVED && a[TCP_HEAD..] == b[TCP_HEAD..]
    ensures b[..RESERVED] == b[..TCP_HEAD] + a[TCP_HEAD..RESERVED]
  {
    assert forall j | TCP_HEAD <= j < |a| :: a[j] == a[TCP_HEAD..][j - TCP_HEAD] == b[TCP_HEAD..][j - TCP_HEAD] == b[j];
  }

  /** The three calls the callback makes for one client. */
  method Offer(conn: RtpConnection, channelId: nat, frameType: nat, rtpPkt: array<byte>, pktSize: nat,
      last: nat, ts: nat)
    requires conn.Valid() && channelId < CHANNELS && last < 2 && ts < TWO_32
    requires TCP_HEAD + RTP_HEADER <= pktSize <= rtpPkt.Length
    modifies conn, conn.writeBuffer, rtpPkt
    ensures conn.Valid()
    ensures conn.State() == Offered(conn.network, old(conn.State()), channelId, frameType, last, ts,
                                    old(rtpPkt[TCP_HEAD + RTP_HEADER..pktSize]))
    ensures old(conn.Intact()) && rtpPkt !in old(conn.writeBuffer.Arrays()) ==> conn.Intact()
    ensures conn.writeBuffer.Arrays() <= old(conn.writeBuffer.Arrays()) + {rtpPkt}
    ensures rtpPkt[TCP_HEAD + RTP_HEADER..] == old(rtpPkt[TCP_HEAD + RTP_HEADER..])
    ensures rtpPkt[..RESERVED]
      == AllOn(old(rtpPkt[..RESERVED]), StampOf(old(conn.State()), channelId, frameType, last, ts, pktSize))
  {
    hide RtpHeader.Encode, Attempted, BufferWriter.Intact, TcpHead, AllOn, Spliced;
    ghost var first, c := rtpPkt[..], conn.State();
    conn.SetFrameType(frameType);
    conn.SetRtpHeader(channelId, rtpPkt, last, ts);
    ghost var mid := rtpPkt[..];
    HeaderWritten(first, mid, conn.State().channels[channelId].header.Encode(), pktSize);
    conn.SendRtpPacket(channelId, rtpPkt, pktSize);
    HeadChanged(mid, rtpPkt[..]);
    OneOn(first[..RESERVED], StampOf(c, channelId, frameType, last, ts, pktSize));
  }

  lemma {:induction false} HeaderWritten(a: seq<byte>, b: seq<byte>, header: seq<byte>, size: nat)
    requires RESERVED <= size <= |a| && |header| == RTP_HEADER && (b == a || b == Spliced(a, TCP_HEAD, header))
    ensures |b| == |a| && b[RESERVED..] == a[RESERVED..] && b[RESERVED..size] == a[RESERVED..size]
    ensures b[..TCP_HEAD] == a[..TCP_HEAD] == a[..RESERVED][..TCP_HEAD]
    ensures b == a ==> b[TCP_HEAD..RESERVED] == a[..RESERVED][TCP_HEAD..] && b[..RESERVED] == a[..RESERVED]
    ensures b == Spliced(a, TCP_HEAD, header) ==>
      b[TCP_HEAD..RESERVED] == header && b[TCP_HEAD..size] == header + a[RESERVED..size]
  {
  }
}
