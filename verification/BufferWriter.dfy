/** The write queue of an RTSP connection (BufferWriter), and the loop that empties it into a
    socket that takes as many bytes as it likes, none, or fails. */
module BufferWriters {
  import opened Bytes

  /** What a send returns: an error, or how many bytes the socket has room for; none stands for
      EAGAIN and EINTR. */
  datatype Outcome = Failed | Took(n: nat)

  /** The n-th send of a connection has outcome `net(n)`. */
  type Network = nat -> Outcome

  // -- The queue as a value ---------------------------------------------------------------

  /** No packet in the queue is used up. */
  ghost predicate Unsent(queue: seq<seq<byte>>) {
    forall k | 0 <= k < |queue| :: queue[k] != []
  }

  /** The socket takes up to `n` bytes of the packet in front. */
  function Drained(queue: seq<seq<byte>>, n: nat): (r: seq<seq<byte>>)
    requires queue != []
    ensures |r| <= |queue|
    ensures Unsent(queue) ==> Unsent(r)
  {
    if n < |queue[0]| then [queue[0][n..]] + queue[1..] else queue[1..]
  }

  lemma {:induction false} DrainedLeast(queue: seq<seq<byte>>, n: nat)
    requires queue != []
    ensures Drained(queue, Least(n, |queue[0]|)) == Drained(queue, n)
  {
  }

  lemma {:induction false} DrainedBytes(queue: seq<seq<byte>>, n: nat)
    requires queue != []
    ensures Flatten(queue) == queue[0][..Least(n, |queue[0]|)] + Flatten(Drained(queue, n))
    ensures queue[0] != [] && n > 0 ==> |Flatten(Drained(queue, n))| < |Flatten(queue)|
  {
    var k := Least(n, |queue[0]|);
    assert queue[0] == queue[0][..k] + queue[0][k..];
    if n < |queue[0]| {
      assert Drained(queue, n)[1..] == queue[1..];
    }
  }

  /** The sends tried so far, the bytes queued, and the bytes the socket has taken. */
  datatype Socket = Socket(attempts: nat, queue: seq<seq<byte>>, wire: seq<byte>) {
    ghost predicate Valid() { Unsent(queue) }
  }

  datatype Flushing = Flushing(socket: Socket, failed: bool)

  /** The loop around BufferWriter::send: until the queue is empty, the socket takes nothing, or a
      send fails. No byte is lost, repeated or reordered. */
  function Flushed(net: Network, s: Socket): (r: Flushing)
    requires s.Valid()
    ensures r.socket.Valid() && |r.socket.queue| <= |s.queue| && r.socket.attempts >= s.attempts
    ensures s.wire <= r.socket.wire
    ensures r.failed ==> r.socket.attempts > s.attempts && net(r.socket.attempts - 1).Failed?
    ensures r.socket.wire + Flatten(r.socket.queue) == s.wire + Flatten(s.queue)
    decreases |Flatten(s.queue)|
  {
    if s.queue == [] then Flushing(s, false)
    else match net(s.attempts)
      case Failed => Flushing(s.(attempts := s.attempts + 1), true)
      case Took(n) =>
        DrainedBytes(s.queue, n);
        var t := Socket(s.attempts + 1, Drained(s.queue, n), s.wire + s.queue[0][..Least(n, |s.queue[0]|)]);
        if n == 0 then Flushing(s.(attempts := s.attempts + 1), false) else Flushed(net, t)
  }

  /** The same loop with the socket of the connection, or with another one: what that takes leaves
      the queue and is no part of the stream. */
  function FlushedTo(net: Network, s: Socket, own: bool): (r: Flushing)
    requires s.Valid()
    ensures r.socket.Valid() && |r.socket.queue| <= |s.queue| && r.socket.attempts >= s.attempts
    ensures r.failed ==> r.socket.attempts > s.attempts && net(r.socket.attempts - 1).Failed?
  {
    var f := Flushed(net, s);
    if own then f else f.(socket := f.socket.(wire := s.wire))
  }

  /** One round of the loop, and whether another one follows. */
  function SentOnce(net: Network, s: Socket): (r: Flushing)
    requires s.Valid()
    ensures r.socket.Valid()
  {
    if s.queue == [] then Flushing(s, false)
    else match net(s.attempts)
      case Failed => Flushing(s.(attempts := s.attempts + 1), true)
      case Took(n) =>
        if n == 0 then Flushing(s.(attempts := s.attempts + 1), false)
        else Flushing(
          Socket(s.attempts + 1, Drained(s.queue, n), s.wire + s.queue[0][..Least(n, |s.queue[0]|)]), false)
  }

  predicate GoesOn(net: Network, s: Socket) {
    s.queue != [] && net(s.attempts).Took? && net(s.attempts).n > 0 && Drained(s.queue, net(s.attempts).n) != []
  }

  lemma {:induction false} FlushStep(net: Network, s: Socket)
    requires s.Valid()
    ensures Flushed(net, s) == if GoesOn(net, s) then Flushed(net, SentOnce(net, s).socket) else SentOnce(net, s)
    ensures GoesOn(net, s) ==> |Flatten(SentOnce(net, s).socket.queue)| < |Flatten(s.queue)|
  {
    if s.queue != [] && net(s.attempts).Took? {
      DrainedBytes(s.queue, net(s.attempts).n);
    }
  }

  /** How the loop ends: every send before the last one took something; it has failed exactly if the
      last one did; and if something is left and none has failed, the last one took nothing. */
  lemma {:induction false} FlushEnds(net: Network, s: Socket)
    requires s.Valid()
    ensures var r := Flushed(net, s); var last := r.socket.attempts - 1;
            && (s.queue == [] <==> r.socket.attempts == s.attempts)
            && (forall k | s.attempts <= k < last :: net(k).Took? && net(k).n > 0)
            && (s.queue != [] ==> (r.failed <==> net(last).Failed?))
            && (s.queue == [] ==> !r.failed)
            && (s.queue != [] && !r.failed ==> (r.socket.queue != [] <==> net(last).n == 0))
            && (s.queue != [] && s.queue == r.socket.queue ==> r.socket.attempts == s.attempts + 1)
    decreases |Flatten(s.queue)|
  {
    hide Drained;
    if s.queue != [] && net(s.attempts).Took? && net(s.attempts).n > 0 {
      var n := net(s.attempts).n;
      DrainedBytes(s.queue, n);
      var t := Socket(s.attempts + 1, Drained(s.queue, n), s.wire + s.queue[0][..Least(n, |s.queue[0]|)]);
      assert Flushed(net, s) == Flushed(net, t);
      FlushEnds(net, t);
    }
  }

  /** A send that takes a part of the packet in front, and then one that takes nothing. */
  lemma {:induction false} TakenInPart(net: Network, s: Socket, n: nat)
    requires s.Valid() && s.queue != [] && 0 < n < |s.queue[0]|
    requires net(s.attempts) == Took(n) && net(s.attempts + 1) == Took(0)
    ensures Flushed(net, s)
      == Flushing(Socket(s.attempts + 2, [s.queue[0][n..]] + s.queue[1..], s.wire + s.queue[0][..n]), false)
  {
    FlushStep(net, s);
    FlushStep(net, SentOnce(net, s).socket);
  }

  /** A socket that always takes something empties the queue. */
  lemma {:induction false} KeepsUp(net: Network, s: Socket)
    requires s.Valid() && forall n | n >= s.attempts :: net(n).Took? && net(n).n > 0
    ensures !Flushed(net, s).failed && Flushed(net, s).socket.queue == []
    decreases |Flatten(s.queue)|
  {
    if s.queue != [] {
      var n := net(s.attempts).n;
      DrainedBytes(s.queue, n);
      KeepsUp(net, Socket(s.attempts + 1, Drained(s.queue, n), s.wire + s.queue[0][..Least(n, |s.queue[0]|)]));
    }
  }

  // -- The queue on the heap --------------------------------------------------------------

  /** A packet in the queue, by reference. */
  datatype Packet = Packet(data: array<byte>, size: nat, writeIndex: nat)

  ghost predicate InRange(buffer: seq<Packet>) {
    forall k | 0 <= k < |buffer| :: buffer[k].writeIndex < buffer[k].size <= buffer[k].data.Length
  }

  ghost function ArraysIn(buffer: seq<Packet>): set<array<byte>> {
    set k | 0 <= k < |buffer| :: buffer[k].data
  }

  /** What the packets refer to. */
  ghost function Refs(buffer: seq<Packet>): (r: seq<(array<byte>, nat)>)
    ensures |r| == |buffer| && forall k | 0 <= k < |buffer| :: r[k] == (buffer[k].data, buffer[k].size)
  {
    seq(|buffer|, k requires 0 <= k < |buffer| => (buffer[k].data, buffer[k].size))
  }

  /** `b` holds the last packets of `a`, perhaps with more of them sent. */
  ghost predicate LastOf(a: seq<Packet>, b: seq<Packet>) {
    |b| <= |a| && Refs(b) == Refs(a)[|a| - |b|..]
  }

  lemma {:induction false} LastOfLast(a: seq<Packet>, b: seq<Packet>, c: seq<Packet>)
    ensures LastOf(a, a)
    ensures LastOf(a, b) && LastOf(b, c) ==> LastOf(a, c)
    ensures LastOf(a, b) ==> ArraysIn(b) <= ArraysIn(a)
  {
    hide Refs;
    assert Refs(a)[0..] == Refs(a);
    if LastOf(a, b) {
      var i, j := |a| - |b|, |b| - |c|;
      if LastOf(b, c) {
        assert Refs(a)[i..][j..] == Refs(a)[i + j..];
      }
      forall x | x in ArraysIn(b) ensures x in ArraysIn(a) {
        var k :| 0 <= k < |b| && b[k].data == x;
        assert Refs(b)[k] == Refs(a)[i + k] == (a[i + k].data, a[i + k].size);
      }
    }
  }

  /** What the packets hold now. */
  ghost function Contents(buffer: seq<Packet>): (h: seq<seq<byte>>)
    requires InRange(buffer)
    reads ArraysIn(buffer)
    ensures |h| == |buffer|
    ensures forall k | 0 <= k < |buffer| :: h[k] == buffer[k].data[buffer[k].writeIndex..buffer[k].size]
  {
    if buffer == [] then []
    else [buffer[0].data[buffer[0].writeIndex..buffer[0].size]] + Contents(buffer[1..])
  }

  /** The queue without `ret` bytes of the packet in front. */
  ghost function Advanced(buffer: seq<Packet>, ret: nat): (r: seq<Packet>)
    requires InRange(buffer) && buffer != [] && ret <= buffer[0].size - buffer[0].writeIndex
    ensures InRange(r)
  {
    var p := buffer[0];
    if p.writeIndex + ret == p.size then buffer[1..] else [p.(writeIndex := p.writeIndex + ret)] + buffer[1..]
  }

  lemma {:induction false} AdvancedLast(buffer: seq<Packet>, ret: nat)
    requires InRange(buffer) && buffer != [] && ret <= buffer[0].size - buffer[0].writeIndex
    ensures LastOf(buffer, Advanced(buffer, ret))
  {
    hide Refs;
    assert Refs(buffer)[0..] == Refs(buffer);
    if buffer[0].writeIndex + ret == buffer[0].size {
      assert Refs(buffer[1..]) == Refs(buffer)[1..];
    } else {
      assert Refs(Advanced(buffer, ret)) == Refs(buffer);
    }
  }

  lemma {:induction false} AdvancedContents(buffer: seq<Packet>, ret: nat)
    requires InRange(buffer) && buffer != [] && ret <= buffer[0].size - buffer[0].writeIndex
    ensures Contents(Advanced(buffer, ret)) == Drained(Contents(buffer), ret)
    ensures var p := buffer[0]; p.data[p.writeIndex..p.writeIndex + ret] == Contents(buffer)[0][..ret]
  {
    hide Contents, ArraysIn;
    var p, rest := buffer[0], buffer[1..];
    assert buffer == [p] + rest;
    FirstContents(p, rest);
    SliceSplits(p, ret);
    if p.writeIndex + ret < p.size {
      FirstContents(p.(writeIndex := p.writeIndex + ret), rest);
    }
  }

  lemma {:induction false} SliceSplits(p: Packet, ret: nat)
    requires p.writeIndex < p.size <= p.data.Length && ret <= p.size - p.writeIndex
    ensures var front := p.data[p.writeIndex..p.size];
            front[..ret] == p.data[p.writeIndex..p.writeIndex + ret] && front[ret..] == p.data[p.writeIndex + ret..p.size]
  {
  }

  lemma {:induction false} FirstContents(p: Packet, rest: seq<Packet>)
    requires p.writeIndex < p.size <= p.data.Length && InRange(rest)
    ensures InRange([p] + rest) && Contents([p] + rest) == [p.data[p.writeIndex..p.size]] + Contents(rest)
  {
    assert ([p] + rest)[1..] == rest;
  }

  /** The bytes still owed for each packet in the queue. */
  ghost predicate Lengths(buffer: seq<Packet>, owed: seq<seq<byte>>) {
    && |owed| == |buffer| && InRange(buffer)
    && forall k | 0 <= k < |buffer| :: |owed[k]| == buffer[k].size - buffer[k].writeIndex
  }

  lemma {:induction false} LeftLengths(buffer: seq<Packet>, owed: seq<seq<byte>>, ret: nat)
    requires Lengths(buffer, owed) && buffer != [] && ret <= buffer[0].size - buffer[0].writeIndex
    ensures Lengths(Advanced(buffer, ret), Drained(owed, ret))
  {
    var b, o := Advanced(buffer, ret), Drained(owed, ret);
    if buffer[0].writeIndex + ret == buffer[0].size {
      assert b == buffer[1..] && o == owed[1..];
      forall k | 0 <= k < |b| ensures |o[k]| == b[k].size - b[k].writeIndex {
        assert o[k] == owed[k + 1] && b[k] == buffer[k + 1];
      }
    } else {
      forall k | 0 < k < |b| ensures |o[k]| == b[k].size - b[k].writeIndex {
        assert o[k] == owed[k] && b[k] == buffer[k];
      }
    }
  }

  class BufferWriter {
    var buffer: seq<Packet>
    const maxQueueLength: nat
    /** Everything the socket has taken. */
    ghost var wire: seq<byte>
    /** What the packets held when they were appended: what is still to be sent of each, and what
        has been sent. */
    ghost var owed: seq<seq<byte>>
    ghost var due: seq<byte>

    ghost predicate Valid()
      reads this
    {
      Lengths(buffer, owed)
    }

    ghost function Arrays(): set<array<byte>>
      reads this
    {
      ArraysIn(buffer)
    }

    /** What the packets hold now. */
    ghost function Held(): (h: seq<seq<byte>>)
      requires Valid()
      reads this, Arrays()
      ensures |h| == |buffer| && Unsent(h)
    {
      Contents(buffer)
    }

    /** No packet has been overwritten since it was appended. */
    ghost predicate Intact()
      requires Valid()
      reads this, Arrays()
    {
      wire == due && Held() == owed
    }

    /** The socket as it is, and as it would be if no packet were ever overwritten. */
    ghost function Actual(attempts: nat): (s: Socket)
      requires Valid()
      reads this, Arrays()
      ensures s.Valid() && |s.queue| == |buffer|
    {
      Socket(attempts, Held(), wire)
    }

    ghost function Pipe(attempts: nat): (s: Socket)
      requires Valid()
      reads this
      ensures s.Valid() && |s.queue| == |buffer|
    {
      Socket(attempts, owed, due)
    }

    constructor (capacity: nat)
      ensures Valid() && buffer == [] && wire == due == [] && maxQueueLength == capacity
    {
      buffer, wire, owed, due, maxQueueLength := [], [], [], [], capacity;
    }

    method Append(data: array<byte>, size: nat, index: nat) returns (ok: bool)
      requires Valid() && size <= data.Length
      modifies this
      ensures Valid() && (old(Intact()) ==> Intact()) && Arrays() <= old(Arrays()) + {data}
      ensures ok <==> index < size && |old(buffer)| < maxQueueLength
      ensures buffer == if ok then old(buffer) + [Packet(data, size, index)] else old(buffer)
      ensures owed == if ok then old(owed) + [data[index..size]] else old(owed)
      ensures Held() == if ok then old(Held()) + [data[index..size]] else old(Held())
      ensures wire == old(wire) && due == old(due)
    {
      if size <= index || |buffer| >= maxQueueLength {
        return false;
      }
      buffer := buffer + [Packet(data, size, index)];
      owed := owed + [data[index..size]];
      return true;
    }

    /** One send of what is left of the packet in front. */
    method Send(outcome: Outcome) returns (ret: int)
      requires Valid()
      modifies this
      ensures Valid() && LastOf(old(buffer), buffer)
      ensures old(buffer) == [] ==> ret == 0
      ensures old(buffer) != [] && outcome.Failed? ==> ret == -1
      ensures old(buffer) == [] || outcome.Failed? || outcome.n == 0 ==> unchanged(this)
      ensures old(buffer) != [] && outcome.Took? ==>
        && ret == Least(outcome.n, |old(Held()[0])|) == Least(outcome.n, |old(owed[0])|)
        && wire == old(wire) + old(Held()[0])[..ret] && due == old(due) + old(owed[0])[..ret]
        && (ret > 0 ==> Held() == Drained(old(Held()), outcome.n) && owed == Drained(old(owed), outcome.n))
    {
      hide Drained, Contents, LastOf;
      LastOfLast(buffer, buffer, buffer);
      if buffer == [] {
        return 0;
      }
      match outcome
      case Failed =>
        return -1;
      case Took(n) =>
        ret := Least(n, buffer[0].size - buffer[0].writeIndex);
        DrainedLeast(Held(), n);
        DrainedLeast(owed, n);
        if ret > 0 {
          Advance(ret);
        }
    }

    /** The socket has taken `ret` bytes; a packet that is used up leaves the queue. */
    method Advance(ret: nat)
      requires Valid() && buffer != [] && 0 < ret <= buffer[0].size - buffer[0].writeIndex
      modifies this
      ensures Valid() && LastOf(old(buffer), buffer)
      ensures Held() == Drained(old(Held()), ret) && wire == old(wire) + old(Held()[0])[..ret]
      ensures owed == Drained(old(owed), ret) && due == old(due) + old(owed[0])[..ret]
    {
      hide Contents, LastOf, Drained;
      AdvancedContents(buffer, ret);
      AdvancedLast(buffer, ret);
      var p := buffer[0];
      wire := wire + p.data[p.writeIndex..p.writeIndex + ret];
      due := due + owed[0][..ret];
      owed := Drained(owed, ret);
      if p.writeIndex + ret == p.size {
        buffer := buffer[1..];
      } else {
        buffer := [p.(writeIndex := p.writeIndex + ret)] + buffer[1..];
      }
      assert buffer == Advanced(old(buffer), ret);
      LeftLengths(old(buffer), old(owed), ret);
    }

    /** What that does to the socket as it is and as it should be. */
    method SendOnce(net: Network, attempts: nat) returns (tried: nat, ret: int)
      requires Valid()
      modifies this
      ensures Valid() && LastOf(old(buffer), buffer)
      ensures Flushing(Pipe(tried), ret < 0) == SentOnce(net, old(Pipe(attempts)))
      ensures Flushing(Actual(tried), ret < 0) == SentOnce(net, old(Actual(attempts)))
      ensures GoesOn(net, old(Pipe(attempts))) == GoesOn(net, old(Actual(attempts))) == (ret > 0 && buffer != [])
    {
      hide Drained, Contents, LastOf, Lengths, InRange, Flatten;
      tried := if buffer == [] then attempts else attempts + 1;
      ret := Send(net(attempts));
    }

    /** The do-while loop around send, with the sends after the first `attempts` of the connection. */
    method Flush(net: Network, attempts: nat) returns (tried: nat, failed: bool)
      requires Valid()
      modifies this
      ensures Valid() && LastOf(old(buffer), buffer) && Arrays() <= old(Arrays())
      ensures Flushed(net, old(Pipe(attempts))) == Flushing(Pipe(tried), failed)
      ensures Flushed(net, old(Actual(attempts))) == Flushing(Actual(tried), failed)
    {
      hide Flushed, SentOnce, GoesOn, Actual, LastOf;
      tried, failed := attempts, false;
      var more := true;
      LastOfLast(buffer, buffer, buffer);
      while more
        invariant Valid() && LastOf(old(buffer), buffer)
        invariant more ==> Flushed(net, Pipe(tried)) == Flushed(net, old(Pipe(attempts)))
        invariant !more ==> Flushed(net, old(Pipe(attempts))) == Flushing(Pipe(tried), failed)
        invariant more ==> Flushed(net, Actual(tried)) == Flushed(net, old(Actual(attempts)))
        invariant !more ==> Flushed(net, old(Actual(attempts))) == Flushing(Actual(tried), failed)
        decreases more, |Flatten(owed)|
      {
        FlushStep(net, Pipe(tried));
        FlushStep(net, Actual(tried));
        var ret;
        ghost var was := buffer;
        tried, ret := SendOnce(net, tried);
        LastOfLast(old(buffer), was, buffer);
        failed := ret < 0;
        more := buffer != [] && ret > 0;
      }
      LastOfLast(old(buffer), buffer, buffer);
    }

    /** ... into the socket of the connection or into another one. */
    method FlushTo(net: Network, attempts: nat, own: bool) returns (tried: nat, failed: bool)
      requires Valid()
      modifies this
      ensures Valid() && LastOf(old(buffer), buffer) && Arrays() <= old(Arrays())
      ensures FlushedTo(net, old(Pipe(attempts)), own) == Flushing(Pipe(tried), failed)
      ensures FlushedTo(net, old(Actual(attempts)), own) == Flushing(Actual(tried), failed)
    {
      hide Flushed, Contents, LastOf;
      tried, failed := Flush(net, attempts);
      if !own {
        wire, due := old(wire), old(due);
      }
    }

    /** The socket has taken bytes that were not in the queue. */
    ghost method PastTheQueue(bytes: seq<byte>)
      requires Valid()
      modifies this`wire, this`due
      ensures Valid() && wire == old(wire) + bytes && due == old(due) + bytes
    {
      wire, due := wire + bytes, due + bytes;
    }
  }
}
