/** The receiving side of the private frame transport: getDataToVDEC rebuilds records from the
    pieces that recv returns, drops bad ones and reassembles frames for the decoder. */
module FrameReceiver {
  import opened Bytes
  import opened FrameRecord

  /** The fields of VDEC_STREAM_S that the receiver uses. */
  datatype Vdec = Vdec(pts: nat, len: nat, endOfFrame: bool)

  const NO_STREAM := Vdec(0, 0, false)

  /** One AW_MPI_VDEC_SendStream call, with a snapshot of the bytes it is given. */
  datatype Delivery = Delivery(stream: Vdec, bytes: seq<byte>)

  /** The statics of the client, apart from the carry-over buffer. `overrun` records a write past
      the end of tmpFrameBox, after which C gives the program no meaning. */
  datatype Core = Core(
    open: bool, needRestart: bool, vdec: Vdec, totalLen: nat, box: seq<byte>, trycount: nat,
    overrun: bool, out: seq<Delivery>)
  {
    predicate Valid() {
      |box| >= CHUNK && totalLen <= |box| && trycount <= 6 && (!needRestart ==> vdec.len > 0)
    }

    predicate Live() { open && !overrun }
  }

  /** The receiver: its core, and the bytes of the record being collected. */
  datatype Receiver = Receiver(core: Core, save: seq<byte>) {
    predicate Valid() {
      core.Valid() && |save| < RECORD
    }
  }

  // -- One record -------------------------------------------------------------------------

  /** The "bad package" test; `offset` is compared as an unsigned number, so a negative one is bad. */
  predicate Bad(i: Info) {
    i.len == 0 || i.pts == 0 || i.endOfFrame < 0 || i.endOfFrame > 1 || i.offset < 0 || i.offset > CHUNK
  }

  /** What the test lets pass: a length and a time stamp, a flag that is one, and no more bytes than a
      record holds. */
  lemma {:induction false} PassesCheck(i: Info)
    ensures !Bad(i) <==> i.len > 0 && i.pts > 0 && (i.endOfFrame == 0 || i.endOfFrame == 1) && 0 <= i.offset <= 1000
  {
  }

  /** What closing the connection resets; `trycount` and the box stay. */
  function Closed(c: Core): (r: Core)
    requires c.Valid()
    ensures r.Valid() && !r.open && r.out == c.out
  {
    c.(open := false, needRestart := true, vdec := NO_STREAM, totalLen := 0)
  }

  /** A bad record; the seventh one since the last forced close closes the connection. */
  function Rejected(c: Core): (r: Core)
    requires c.Valid()
    ensures r.Valid() && r.out == c.out
  {
    if c.trycount > 5 then Closed(c).(trycount := 0) else c.(trycount := c.trycount + 1)
  }

  /** A complete frame that waits for the next start record. */
  function Pending(c: Core): seq<Delivery>
    requires c.Valid()
  {
    if !c.needRestart && c.vdec.len > 0 && c.totalLen == c.vdec.len
    then [Delivery(c.vdec, c.box[..c.totalLen])]
    else []
  }

  /** A start record hands over the frame before it and opens a new one. */
  function Started(c: Core, i: Info): (r: Core)
    requires c.Valid() && i.len > 0
    ensures r.Valid()
  {
    c.(out := c.out + Pending(c), needRestart := false, vdec := Vdec(i.pts, i.len, i.endOfFrame == 1), totalLen := 0)
  }

  function Appended(c: Core, payload: seq<byte>): (r: Core)
    requires c.Valid()
    ensures r.Valid() && r.out == c.out
  {
    if c.totalLen + |payload| > |c.box| then c.(overrun := true)
    else c.(box := Spliced(c.box, c.totalLen, payload), totalLen := c.totalLen + |payload|)
  }

  /** The effect of one complete record. */
  function Handle(c: Core, p: Packet): (r: Core)
    requires c.Valid()
    ensures r.Valid()
    ensures c.out <= r.out
  {
    var i := p.info;
    if Bad(i) then Rejected(c)
    else if c.needRestart && i.start != 1 then c
    else
      var c1 := if i.start == 1 then Started(c, i) else c;
      var c2 := if c1.totalLen > i.len then c1.(totalLen := i.offset) else c1;
      if i.start != 0 && i.start != 1 then c2 else Appended(c2, p.payload)
  }

  function HandleAll(c: Core, ps: seq<Packet>): (r: Core)
    requires c.Valid()
    ensures r.Valid()
    ensures c.out <= r.out
    decreases |ps|
  {
    if ps == [] || !c.Live() then c else HandleAll(Handle(c, ps[0]), ps[1..])
  }

  // -- One recv ---------------------------------------------------------------------------

  /** getDataToVDEC when recv returns `piece`; empty stands for a closed or failed connection. */
  function OnRecv(s: Receiver, piece: seq<byte>): (r: Receiver)
    requires s.Valid() && |piece| <= RECORD
    ensures r.Valid()
    ensures s.core.out <= r.core.out
  {
    if piece == [] then Receiver(Closed(s.core), [])
    else if |s.save| + |piece| < RECORD then s.(save := s.save + piece)
    else
      var index := RECORD - |s.save|;
      var c := Handle(s.core, Parse(s.save + piece[..index]));
      Receiver(c, if c.open then piece[index..] else [])
  }

  predicate Pieces(pieces: seq<seq<byte>>) {
    forall k | 0 <= k < |pieces| :: 1 <= |pieces[k]| <= RECORD
  }

  /** The main loop over one connection: it stops calling recv once the connection is closed. */
  function Run(s: Receiver, pieces: seq<seq<byte>>): (r: Receiver)
    requires s.Valid() && Pieces(pieces)
    ensures r.Valid()
    ensures s.core.out <= r.core.out
    decreases |pieces|
  {
    if pieces == [] || !s.core.Live() then s else Run(OnRecv(s, pieces[0]), pieces[1..])
  }

  // -- The main loop ----------------------------------------------------------------------

  /** The select timeout in main closes the socket, and that is all it does. */
  function TimedOut(s: Receiver): (r: Receiver)
    requires s.Valid()
    ensures r.Valid()
  {
    s.(core := s.core.(open := false))
  }

  /** connectServer. */
  function Reconnected(s: Receiver): (r: Receiver)
    requires s.Valid()
    ensures r.Valid()
  {
    s.(core := s.core.(open := true))
  }

  /** One round of main: select times out, or recv returns a piece (an empty one if the connection
      is closed or fails). */
  datatype Round = Timeout | Readable(piece: seq<byte>) {
    predicate Valid() { Readable? ==> |piece| <= RECORD }
  }

  function OnRound(s: Receiver, i: Round): (r: Receiver)
    requires s.Valid() && i.Valid()
    ensures r.Valid()
    ensures s.core.out <= r.core.out
  {
    match i
    case Timeout => TimedOut(Reconnected(s))
    case Readable(piece) => OnRecv(Reconnected(s), piece)
  }

  predicate Rounds(rounds: seq<Round>) {
    forall k | 0 <= k < |rounds| :: rounds[k].Valid()
  }

  function Served(s: Receiver, rounds: seq<Round>): (r: Receiver)
    requires s.Valid() && Rounds(rounds)
    ensures r.Valid()
    ensures s.core.out <= r.core.out
    decreases |rounds|
  {
    if rounds == [] || s.core.overrun then s else Served(OnRound(s, rounds[0]), rounds[1..])
  }

  function AsRounds(pieces: seq<seq<byte>>): (rounds: seq<Round>)
    requires Pieces(pieces)
    ensures |rounds| == |pieces| && forall k | 0 <= k < |rounds| :: rounds[k] == Readable(pieces[k])
    ensures Rounds(rounds)
  {
    seq(|pieces|, k requires 0 <= k < |pieces| => Readable(pieces[k]))
  }

  /** As long as nothing closes the connection, main serves it. */
  lemma {:induction false} ServedConnection(s: Receiver, pieces: seq<seq<byte>>)
    requires s.Valid() && Pieces(pieces) && Run(s, pieces).core.open
    ensures Served(s, AsRounds(pieces)) == Run(s, pieces)
    decreases |pieces|
  {
    hide OnRecv;
    if pieces != [] && s.core.Live() {
      assert AsRounds(pieces)[1..] == AsRounds(pieces[1..]);
      assert Reconnected(s) == s;
      ServedConnection(OnRecv(s, pieces[0]), pieces[1..]);
    }
  }

  /** A select timeout on its own closes the connection and leaves everything else as it is. */
  lemma {:induction false} TimeoutRound(s: Receiver)
    requires s.Valid() && !s.core.overrun
    ensures Served(s, [Timeout]) == s.(core := s.core.(open := false))
  {
    assert [Timeout][1..] == [];
  }

  lemma {:induction false} ServedConcat(s: Receiver, a: seq<Round>, b: seq<Round>)
    requires s.Valid() && Rounds(a) && Rounds(b)
    ensures Rounds(a + b) && Served(s, a + b) == Served(Served(s, a), b)
    decreases |a|
  {
    hide OnRound;
    if a == [] {
      assert a + b == b;
    } else if !s.core.overrun {
      assert (a + b)[1..] == a[1..] + b;
      ServedConcat(OnRound(s, a[0]), a[1..], b);
    }
  }

  /** A closed connection is made again before the next piece is read. */
  lemma {:induction false} ServedAgain(s: Receiver, pieces: seq<seq<byte>>)
    requires s.Valid() && !s.core.overrun && Pieces(pieces) && pieces != [] && Run(Reconnected(s), pieces).core.open
    ensures Served(s, AsRounds(pieces)) == Run(Reconnected(s), pieces)
  {
    hide OnRecv;
    ServedConnection(Reconnected(s), pieces);
    assert OnRound(Reconnected(s), AsRounds(pieces)[0]) == OnRound(s, AsRounds(pieces)[0]);
  }

  // -- Forced closes ----------------------------------------------------------------------

  /** The piece completes a record. */
  predicate Completes(s: Receiver, piece: seq<byte>)
    requires s.Valid()
  {
    |piece| <= RECORD && |s.save| + |piece| >= RECORD
  }

  function RecordOf(s: Receiver, piece: seq<byte>): (r: seq<byte>)
    requires s.Valid() && Completes(s, piece)
    ensures |r| == RECORD
  {
    s.save + piece[..RECORD - |s.save|]
  }

  /** A bad record that comes after six others since the last forced close closes the connection: the
      bytes carried over, the frame under way and a frame that waits to be handed over are dropped,
      and the next connection starts afresh with no bad record counted. Any other one is counted. */
  lemma {:induction false} BadRecord(s: Receiver, piece: seq<byte>)
    requires s.Valid() && s.core.Live() && Completes(s, piece) && Bad(Parse(RecordOf(s, piece)).info)
    ensures var r, c := OnRecv(s, piece), s.core;
            && r.core.out == c.out && r.core.box == c.box && !r.core.overrun
            && if c.trycount == 6
               then && !r.core.open && r.core.trycount == 0 && r.save == [] && r.core.needRestart
                    && r.core.vdec == NO_STREAM && r.core.totalLen == 0 && Pending(r.core) == []
               else r.core == c.(trycount := c.trycount + 1) && r.save == piece[RECORD - |s.save|..]
  {
    hide Parse, Bad;
  }

  /** How many bad records the rounds complete. */
  function BadSeen(s: Receiver, rounds: seq<Round>): nat
    requires s.Valid() && Rounds(rounds)
    decreases |rounds|
  {
    if rounds == [] || s.core.overrun then 0
    else
      (if rounds[0].Readable? && rounds[0].piece != [] && Completes(s, rounds[0].piece)
          && Bad(Parse(RecordOf(s, rounds[0].piece)).info) then 1 else 0)
      + BadSeen(OnRound(s, rounds[0]), rounds[1..])
  }

  /** How many times the connection is closed although bytes have come. */
  function ForcedCloses(s: Receiver, rounds: seq<Round>): nat
    requires s.Valid() && Rounds(rounds)
    decreases |rounds|
  {
    if rounds == [] || s.core.overrun then 0
    else
      (if rounds[0].Readable? && rounds[0].piece != [] && !OnRound(s, rounds[0]).core.open then 1 else 0)
      + ForcedCloses(OnRound(s, rounds[0]), rounds[1..])
  }

  lemma {:induction false} OneInSeven(s: Receiver, i: Round)
    requires s.Valid() && i.Valid() && !s.core.overrun
    ensures var r := OnRound(s, i);
            var bad := i.Readable? && i.piece != [] && Completes(s, i.piece) && Bad(Parse(RecordOf(s, i.piece)).info);
            s.core.trycount + (if bad then 1 else 0)
              == 7 * (if i.Readable? && i.piece != [] && !r.core.open then 1 else 0) + r.core.trycount
  {
    hide Parse, Spliced, Bad, Pending;
  }

  /** Over any rounds, timeouts, disconnects and reconnections included: every seventh bad record
      closes the connection by force, and nothing else that is received does. */
  lemma {:induction false} EverySeventh(s: Receiver, rounds: seq<Round>)
    requires s.Valid() && Rounds(rounds)
    ensures s.core.trycount + BadSeen(s, rounds) == 7 * ForcedCloses(s, rounds) + Served(s, rounds).core.trycount
    ensures Served(s, rounds).core.trycount < 7
    decreases |rounds|
  {
    hide OnRound, Completes, RecordOf, Parse, Bad;
    if rounds != [] && !s.core.overrun {
      OneInSeven(s, rounds[0]);
      EverySeventh(OnRound(s, rounds[0]), rounds[1..]);
    }
  }

  // -- The client -------------------------------------------------------------------------

  class Client {
    var serverPid: int
    var needRestart: int
    const saveBuff: array<byte>
    var saveLen: nat
    var vdec: Vdec
    var totalLen: nat
    const tmpFrameBox: array<byte>
    var trycount: nat
    var overrun: bool
    ghost var delivered: seq<Delivery>

    ghost predicate Valid()
      reads this, saveBuff, tmpFrameBox
    {
      && saveBuff != tmpFrameBox && saveBuff.Length == RECORD
      && saveLen < RECORD
      && CoreValid()
    }

    ghost predicate CoreValid()
      reads this, tmpFrameBox
    {
      && (needRestart == 0 || needRestart == 1) && trycount <= 6
      && tmpFrameBox.Length >= CHUNK && totalLen <= tmpFrameBox.Length
      && (needRestart == 0 ==> vdec.len > 0)
    }

    ghost function CoreState(): (c: Core)
      requires CoreValid()
      reads this, tmpFrameBox
      ensures c.Valid()
    {
      Core(serverPid > 0, needRestart == 1, vdec, totalLen, tmpFrameBox[..], trycount, overrun, delivered)
    }

    ghost function State(): (s: Receiver)
      requires Valid()
      reads this, saveBuff, tmpFrameBox
      ensures s.Valid()
    {
      Receiver(CoreState(), saveBuff[..saveLen])
    }

    constructor (pid: int, boxSize: nat)
      requires pid > 0 && boxSize >= CHUNK
      ensures Valid() && fresh(saveBuff) && fresh(tmpFrameBox)
      ensures tmpFrameBox.Length == boxSize
      ensures State() == Receiver(Core(true, true, NO_STREAM, 0, tmpFrameBox[..], 0, false, []), [])
    {
      serverPid, needRestart, saveLen, vdec, totalLen, trycount := pid, 1, 0, NO_STREAM, 0, 0;
      overrun, delivered := false, [];
      saveBuff := new byte[RECORD];
      tmpFrameBox := new byte[boxSize];
    }

    /** tcp_client/src/sample_vi_venc_client.cpp:235-324: the record in hand has been parsed into `info` and `data`. */
    method HandleRecord(info: Info, data: seq<byte>) returns (closed: bool)
      requires CoreValid() && serverPid > 0 && !overrun
      requires 0 <= info.offset <= CHUNK ==> |data| == info.offset
      modifies this`serverPid, this`needRestart, this`vdec, this`totalLen, this`trycount
      modifies this`overrun, this`delivered, tmpFrameBox
      ensures CoreValid() && CoreState() == Handle(old(CoreState()), Packet(info, data))
      ensures closed == (serverPid <= 0)
    {
      closed := false;
      if info.len <= 0 || info.pts <= 0 || info.endOfFrame < 0 || info.endOfFrame > 1
         || info.offset < 0 || info.offset > CHUNK {
        if serverPid > 0 && trycount > 5 {
          serverPid := -1;
          vdec := NO_STREAM;
          needRestart := 1;
          totalLen := 0;
          trycount := 0;
          closed := true;
        } else {
          trycount := trycount + 1;
        }
        return;
      }
      if needRestart == 1 && info.start != 1 {
        return;
      }
      if info.start == 1 {
        if vdec.len > 0 && needRestart != 1 {
          if totalLen == vdec.len {
            delivered := delivered + [Delivery(vdec, tmpFrameBox[..vdec.len])];
          }
        }
        needRestart := 0;
        vdec := Vdec(info.pts, info.len, info.endOfFrame == 1);
        totalLen := 0;
      }
      if totalLen > info.len {
        totalLen := info.offset;
      }
      if info.start != 0 && info.start != 1 {
        return;
      }
      if totalLen + info.offset > tmpFrameBox.Length {
        overrun := true;
        return;
      }
      var box := totalLen;
      totalLen := totalLen + info.offset;
      Memcpy(tmpFrameBox, box, data);
    }

    /** tcp_client/src/sample_vi_venc_client.cpp:175-183: append to the carry-over buffer as much as it takes. */
    method Collect(buff: seq<byte>) returns (index: nat)
      requires saveBuff.Length == RECORD && saveLen < RECORD && 0 < |buff| <= RECORD
      modifies this`saveLen, saveBuff
      ensures index == RECORD - old(saveLen)
      ensures saveLen == if index < |buff| then RECORD else old(saveLen) + |buff|
      ensures saveBuff[..saveLen] == old(saveBuff[..saveLen]) + buff[..if index < |buff| then index else |buff|]
    {
      index := RECORD - saveLen;
      if index < |buff| {
        Memcpy(saveBuff, saveLen, buff[..index]);
        saveLen := saveLen + index;
      } else {
        Memcpy(saveBuff, saveLen, buff);
        saveLen := saveLen + |buff|;
      }
    }

    /** tcp_client/src/sample_vi_venc_client.cpp:221-233: keep the bytes of the next record. */
    method Carry(buff: seq<byte>, index: nat)
      requires saveBuff.Length == RECORD && 0 < index <= |buff| <= RECORD
      modifies this`saveLen, saveBuff
      ensures saveLen == |buff| - index && saveBuff[..saveLen] == buff[index..]
    {
      if index > 0 && |buff| - index > 0 {
        if |buff| - index > saveBuff.Length {
          assert false;  // "overflow 4" cannot happen
        }
        Memcpy(saveBuff, 0, buff[index..]);
        saveLen := |buff| - index;
      } else {
        saveLen := 0;
      }
    }

    /** getDataToVDEC, with what recv returned. */
    method GetDataToVDEC(buff: seq<byte>) returns (len: nat)
      requires Valid() && serverPid > 0 && !overrun && |buff| <= RECORD
      modifies this, saveBuff, tmpFrameBox
      ensures Valid() && State() == OnRecv(old(State()), buff)
      ensures len == |buff|
    {
      hide Handle, Parse;
      len := |buff|;
      if len <= 0 {
        serverPid := -1;
        vdec := NO_STREAM;
        needRestart := 1;
        totalLen := 0;
        saveLen := 0;
        return;
      }
      var index := Collect(buff);
      if saveLen != RECORD {
        return;
      }
      assert saveBuff[..] == saveBuff[..RECORD];
      var p := Parse(saveBuff[..]);
      Carry(buff, index);
      var closed := HandleRecord(p.info, p.payload);
      if closed {
        saveLen := 0;
      }
    }

    /** One round of the main loop: connect if need be, and wait for the socket before the recv. */
    method Serve(round: Round)
      requires Valid() && round.Valid() && !overrun
      modifies this, saveBuff, tmpFrameBox
      ensures Valid() && State() == OnRound(old(State()), round)
    {
      hide OnRecv;
      if serverPid <= 0 {
        serverPid := 1;
      }
      match round
      case Timeout => serverPid := -1;
      case Readable(piece) => var _ := GetDataToVDEC(piece);
    }

    method MainLoop(rounds: seq<Round>)
      requires Valid() && Rounds(rounds)
      modifies this, saveBuff, tmpFrameBox
      ensures Valid() && State() == Served(old(State()), rounds)
    {
      hide OnRound;
      var k := 0;
      while k < |rounds| && !overrun
        invariant 0 <= k <= |rounds| && Valid()
        invariant Served(State(), rounds[k..]) == Served(old(State()), rounds)
      {
        Serve(rounds[k]);
        assert rounds[k + 1..] == rounds[k..][1..];
        k := k + 1;
      }
    }
  }
}
