/** The RTSP client side: the handshake by which RtspPusher starts to record. */
module Pusher {
  import opened Bytes

  const CHANNELS := 2

  datatype Method = OPTIONS | ANNOUNCE | SETUP(ch: nat) | RECORD

  /** A request on the wire. */
  datatype Request = Request(meth: Method, cseq: nat)

  /** The method the connection last sent, as RtspResponse remembers it. */
  datatype Waiting = ForOptions | ForAnnounce | ForSetup | ForRecord

  /** What one read of the socket yields: an end or an error, a whole response that does not say OK,
      or a response that does, or part of one. `found` tells whether the session that the next
      request is about is there (and, for ANNOUNCE, has a description), `taken` whether the socket
      takes that request. */
  datatype Read = Ended | Refused | Response(whole: bool, found: bool, taken: bool)

  /** `sources` tells which channels of the session have a media source. */
  datatype Progress = Progress(
    sources: seq<bool>, waiting: Waiting, cseq: nat, isClosed: bool, isSetup: seq<bool>, isRecord: bool,
    requests: seq<Request>)
  {
    predicate Valid() { |sources| == CHANNELS && |isSetup| == CHANNELS }
  }

  // -- The handlers, as functions of the state ---------------------------------------------

  function Sent(c: Progress, m: Method, taken: bool): Progress {
    if taken then c.(requests := c.requests + [Request(m, c.cseq + 1)]) else c.(isClosed := true)
  }

  /** sendOptions on a new connection. */
  function Opened(sources: seq<bool>): (c: Progress)
    requires |sources| == CHANNELS
    ensures c.Valid()
  {
    Sent(Progress(sources, ForOptions, 0, false, [false, false], false, []), OPTIONS, true)
  }

  /** sendSetup: the first channel with a source that is not set up, or RECORD. */
  function SetupSent(c: Progress, found: bool, taken: bool): (r: Progress)
    requires c.Valid()
    ensures r.Valid()
  {
    var d := c.(waiting := ForSetup);
    if !found then d.(isClosed := true)
    else if d.sources[0] && !d.isSetup[0] then Sent(d.(isSetup := d.isSetup[0 := true]), SETUP(0), taken)
    else if d.sources[1] && !d.isSetup[1] then Sent(d.(isSetup := d.isSetup[1 := true]), SETUP(1), taken)
    else Sent(d.(waiting := ForRecord), RECORD, taken)
  }

  /** handleRtspResponse's switch; record() marks the channels that are set up. */
  function Dispatched(c: Progress, found: bool, taken: bool): (r: Progress)
    requires c.Valid()
    ensures r.Valid()
  {
    match c.waiting
    case ForOptions => if found then Sent(c.(waiting := ForAnnounce), ANNOUNCE, taken) else c.(isClosed := true)
    case ForAnnounce => SetupSent(c, found, taken)
    case ForSetup => SetupSent(c, found, taken)
    case ForRecord => c.(isRecord := true)
  }

  /** handleRead: a refused response closes; a partial one is dispatched without counting. */
  function OnRead(c: Progress, r: Read): (c': Progress)
    requires c.Valid()
    ensures c'.Valid() && (c.isClosed ==> c' == c)
  {
    if c.isClosed then c
    else match r
      case Ended => c.(isClosed := true)
      case Refused => c.(isClosed := true)
      case Response(whole, found, taken) =>
        Dispatched(if whole then c.(cseq := c.cseq + 1) else c, found, taken)
  }

  function Run(sources: seq<bool>, rs: seq<Read>): (c: Progress)
    requires |sources| == CHANNELS
    ensures c.Valid()
  {
    if rs == [] then Opened(sources) else OnRead(Run(sources, rs[..|rs| - 1]), rs[|rs| - 1])
  }

  // -- What is requested ------------------------------------------------------------------

  function Setups(sources: seq<bool>): seq<Method>
    requires |sources| == CHANNELS
  {
    (if sources[0] then [SETUP(0)] else []) + if sources[1] then [SETUP(1)] else []
  }

  /** OPTIONS, ANNOUNCE, one SETUP for each channel with a source, RECORD. */
  function Script(sources: seq<bool>): (ms: seq<Method>)
    requires |sources| == CHANNELS
    ensures 3 <= |ms| <= 5
  {
    [OPTIONS, ANNOUNCE] + Setups(sources) + [RECORD]
  }

  predicate IsPartial(r: Read) { r.Response? && !r.whole }

  function Partials(rs: seq<Read>): nat {
    if rs == [] then 0 else Partials(rs[..|rs| - 1]) + if IsPartial(rs[|rs| - 1]) then 1 else 0
  }

  /** Where the handshake stands after `n` dispatched reads. */
  ghost predicate At(c: Progress, sources: seq<bool>, n: nat) {
    && c.Valid() && |sources| == CHANNELS && c.sources == sources && !c.isClosed
    && |c.requests| == Least(n + 1, |Script(sources)|)
    && (forall k | 0 <= k < |c.requests| :: c.requests[k].meth == Script(sources)[k])
    && c.waiting == (if n == 0 then ForOptions else if n == 1 then ForAnnounce
                     else if n + 1 < |Script(sources)| then ForSetup else ForRecord)
    && c.isSetup == [sources[0] && n >= 2, sources[1] && n >= if sources[0] then 3 else 2]
    && (c.isRecord <==> n >= |Script(sources)|)
  }

  lemma {:induction false} OneDispatch(c: Progress, sources: seq<bool>, n: nat, cseq: nat)
    requires At(c, sources, n)
    ensures At(Dispatched(c.(cseq := cseq), true, true), sources, n + 1)
    ensures var last := n + 1 >= |Script(sources)|;
            forall found, taken :: Dispatched(c.(cseq := cseq), found, taken).isClosed <==> !last && !(found && taken)
    ensures n + 1 >= |Script(sources)| ==>
      forall found, taken :: Dispatched(c.(cseq := cseq), found, taken) == Dispatched(c.(cseq := cseq), true, true)
  {
  }

  /** The n-th read closes the connection: it ends, is refused, or cannot be answered. */
  predicate Closes(sources: seq<bool>, n: nat, r: Read)
    requires |sources| == CHANNELS
  {
    r.Ended? || r.Refused? || (n + 1 < |Script(sources)| && !(r.found && r.taken))
  }

  /** Over every run that leaves the connection open, the responses whole or not: the requests
      follow the script, one for each read, until RECORD; recording starts with the answer to
      RECORD, when every channel with a source is set up; and later responses send nothing. */
  lemma {:induction false} Handshake(sources: seq<bool>, rs: seq<Read>)
    requires |sources| == CHANNELS && !Run(sources, rs).isClosed
    ensures At(Run(sources, rs), sources, |rs|)
    ensures Run(sources, rs).isRecord ==> Run(sources, rs).isSetup == sources
    ensures |rs| >= |Script(sources)| - 1 ==> |Run(sources, rs).requests| == |Script(sources)|
  {
    if rs != [] {
      var c, r := Run(sources, rs[..|rs| - 1]), rs[|rs| - 1];
      Handshake(sources, rs[..|rs| - 1]);
      OneDispatch(c, sources, |rs| - 1, if r.whole then c.cseq + 1 else c.cseq);
    }
  }

  /** It is closed exactly when some read has closed it. */
  lemma {:induction false} ClosedIff(sources: seq<bool>, rs: seq<Read>)
    requires |sources| == CHANNELS
    ensures Run(sources, rs).isClosed <==> exists k :: 0 <= k < |rs| && Closes(sources, k, rs[k])
  {
    hide Script, Dispatched;
    if rs != [] {
      var init, r := rs[..|rs| - 1], rs[|rs| - 1];
      ClosedIff(sources, init);
      assert forall k | 0 <= k < |init| :: init[k] == rs[k];
      var c := Run(sources, init);
      if !c.isClosed {
        Handshake(sources, init);
        if r.Response? {
          OneDispatch(c, sources, |init|, if r.whole then c.cseq + 1 else c.cseq);
          assert r.whole ==> c.(cseq := c.cseq + 1) == c.(cseq := if r.whole then c.cseq + 1 else c.cseq);
          assert c.(cseq := c.cseq) == c;
        }
        assert Run(sources, rs).isClosed <==> Closes(sources, |init|, rs[|init|]);
      } else {
        assert exists k :: 0 <= k < |rs| && Closes(sources, k, rs[k]);
      }
    }
  }

  lemma {:induction false} DispatchAppends(c: Progress, found: bool, taken: bool)
    requires c.Valid()
    ensures var d := Dispatched(c, found, taken);
            && d.cseq == c.cseq && c.requests <= d.requests && |d.requests| <= |c.requests| + 1
            && (|d.requests| > |c.requests| ==> d.requests[|c.requests|].cseq == c.cseq + 1)
  {
  }

  /** A read appends at most one request, which carries the number of whole responses plus one. */
  lemma {:induction false} ReadAppends(c: Progress, r: Read)
    requires c.Valid() && !OnRead(c, r).isClosed
    ensures var c' := OnRead(c, r);
            && c'.cseq == c.cseq + (if IsPartial(r) then 0 else 1)
            && c.requests <= c'.requests && |c'.requests| <= |c.requests| + 1
            && (|c'.requests| > |c.requests| ==> c'.requests[|c.requests|].cseq == c'.cseq + 1)
  {
    hide Dispatched;
    if r.Response? {
      DispatchAppends(if r.whole then c.(cseq := c.cseq + 1) else c, r.found, r.taken);
    }
  }

  lemma {:induction false} RequestsBound(sources: seq<bool>, rs: seq<Read>)
    requires |sources| == CHANNELS && !Run(sources, rs).isClosed
    ensures 1 <= |Run(sources, rs).requests| <= |rs| + 1
    ensures rs != [] ==> var n := |Run(sources, rs[..|rs| - 1]).requests|;
                         |Run(sources, rs).requests| > n ==> n == |rs|
  {
    hide Script;
    Handshake(sources, rs);
    if rs != [] {
      Handshake(sources, rs[..|rs| - 1]);
    }
  }

  /** The k-th request carries k less the partial reads before it. */
  lemma {:induction false} CSeqs(sources: seq<bool>, rs: seq<Read>)
    requires |sources| == CHANNELS && !Run(sources, rs).isClosed
    ensures var c := Run(sources, rs);
            && c.cseq == |rs| - Partials(rs) && |c.requests| <= |rs| + 1
            && forall k | 0 <= k < |c.requests| :: c.requests[k].cseq == k + 1 - Partials(rs[..k])
  {
    hide OnRead;
    RequestsBound(sources, rs);
    if rs != [] {
      var init := rs[..|rs| - 1];
      RequestsBound(sources, init);
      CSeqs(sources, init);
      ReadAppends(Run(sources, init), rs[|rs| - 1]);
      assert forall k | 0 <= k <= |init| :: init[..k] == rs[..k];
      assert rs[..|rs|] == rs;
    }
  }

  lemma {:induction false} PartialsZero(rs: seq<Read>)
    ensures Partials(rs) == 0 <==> forall k | 0 <= k < |rs| :: !IsPartial(rs[k])
  {
    if rs != [] {
      PartialsZero(rs[..|rs| - 1]);
    }
  }

  lemma {:induction false} PartialsGrow(rs: seq<Read>, k: nat)
    requires k <= |rs|
    ensures Partials(rs[..k]) <= Partials(rs)
  {
    if k < |rs| {
      PartialsGrow(rs[..|rs| - 1], k);
      assert rs[..|rs| - 1][..k] == rs[..k];
    } else {
      assert rs[..k] == rs;
    }
  }

  /** So the k-th request has CSeq k, for every k, exactly when every read before the last request
      was a whole response. */
  lemma {:induction false} NumberedFromOne(sources: seq<bool>, rs: seq<Read>)
    requires |sources| == CHANNELS && !Run(sources, rs).isClosed
    ensures var c := Run(sources, rs);
            && 1 <= |c.requests| <= |rs| + 1
            && ((forall k | 0 <= k < |c.requests| :: c.requests[k].cseq == k + 1)
                <==> forall k | 0 <= k < |c.requests| - 1 :: !IsPartial(rs[k]))
  {
    hide Run, Partials;
    RequestsBound(sources, rs);
    CSeqs(sources, rs);
    var c := Run(sources, rs);
    var n := |c.requests| - 1;
    PartialsZero(rs[..n]);
    if Partials(rs[..n]) == 0 {
      forall k | 0 <= k <= n ensures c.requests[k].cseq == k + 1 {
        PartialsGrow(rs[..n], k);
        assert rs[..n][..k] == rs[..k];
      }
    } else {
      assert c.requests[n].cseq != n + 1;
    }
    assert forall k | 0 <= k < n :: rs[..n][k] == rs[k];
  }

  /** Closed, it stays as it is: nothing is sent afterwards. */
  lemma {:induction false} ClosedStays(sources: seq<bool>, rs: seq<Read>, more: seq<Read>)
    requires |sources| == CHANNELS && Run(sources, rs).isClosed
    ensures Run(sources, rs + more) == Run(sources, rs)
  {
    if more == [] {
      assert rs + more == rs;
    } else {
      var init := more[..|more| - 1];
      ClosedStays(sources, rs, init);
      assert (rs + more)[..|rs + more| - 1] == rs + init;
    }
  }

  /** The run of a response to OPTIONS that arrives in two reads: both parts are answered, so that
      ANNOUNCE carries the CSeq of OPTIONS again. */
  lemma {:induction false} SplitResponse()
    ensures var c := Run([true, false], [Response(false, true, true), Response(true, true, true)]);
            c.requests == [Request(OPTIONS, 1), Request(ANNOUNCE, 1), Request(SETUP(0), 2)]
  {
    var a, b := Response(false, true, true), Response(true, true, true);
    assert [a, b][..1] == [a] && [a][..0] == [];
    assert Run([true, false], []).requests == [Request(OPTIONS, 1)];
    assert Run([true, false], [a]).requests == [Request(OPTIONS, 1), Request(ANNOUNCE, 1)];
  }

  // -- The connection ---------------------------------------------------------------------

  /** RtspConnection in client mode, after a connect that took OPTIONS. */
  class RtspConnection {
    const sources: seq<bool>
    var waiting: Waiting
    var cseq: nat
    var isClosed: bool
    var isSetup: seq<bool>
    var isRecord: bool
    ghost var requests: seq<Request>

    ghost predicate Valid()
      reads this
    {
      |sources| == CHANNELS && |isSetup| == CHANNELS
    }

    ghost function State(): (c: Progress)
      requires Valid()
      reads this
      ensures c.Valid()
    {
      Progress(sources, waiting, cseq, isClosed, isSetup, isRecord, requests)
    }

    constructor (sources: seq<bool>)
      requires |sources| == CHANNELS
      ensures Valid() && this.sources == sources && State() == Run(sources, [])
    {
      this.sources, waiting, cseq, isClosed, isSetup, isRecord := sources, ForOptions, 0, false, [false, false], false;
      requests := [];
      new;
      SendMessage(OPTIONS, true);
    }

    /** `taken` tells whether the send succeeds. */
    method SendMessage(m: Method, taken: bool)
      requires Valid() && !isClosed
      modifies this`requests, this`isClosed
      ensures Valid() && State() == Sent(old(State()), m, taken)
    {
      if taken {
        requests := requests + [Request(m, cseq + 1)];
      } else {
        isClosed := true;
      }
    }

    method SendAnnounce(found: bool, taken: bool)
      requires Valid() && !isClosed && waiting == ForOptions
      modifies this
      ensures Valid() && State() == Dispatched(old(State()), found, taken)
    {
      if !found {
        isClosed := true;
        return;
      }
      waiting := ForAnnounce;
      SendMessage(ANNOUNCE, taken);
    }

    method SendSetup(found: bool, taken: bool)
      requires Valid() && !isClosed
      modifies this
      ensures Valid() && State() == SetupSent(old(State()), found, taken)
    {
      waiting := ForSetup;
      if !found {
        isClosed := true;
        return;
      }
      if sources[0] && !isSetup[0] {
        isSetup := isSetup[0 := true];
        SendMessage(SETUP(0), taken);
      } else if sources[1] && !isSetup[1] {
        isSetup := isSetup[1 := true];
        SendMessage(SETUP(1), taken);
      } else {
        waiting := ForRecord;
        SendMessage(RECORD, taken);
      }
    }

    method HandleRead(r: Read)
      requires Valid()
      modifies this
      ensures Valid() && State() == OnRead(old(State()), r)
    {
      hide Dispatched;
      if isClosed {
        return;
      }
      match r
      case Ended => isClosed := true;
      case Refused => isClosed := true;
      case Response(whole, found, taken) =>
        if whole {
          cseq := cseq + 1;
        }
        Dispatch(found, taken);
    }

    method Dispatch(found: bool, taken: bool)
      requires Valid() && !isClosed
      modifies this
      ensures Valid() && State() == Dispatched(old(State()), found, taken)
    {
      hide SetupSent;
      match waiting
      case ForOptions => SendAnnounce(found, taken);
      case ForAnnounce => SendSetup(found, taken);
      case ForSetup => SendSetup(found, taken);
      case ForRecord => isRecord := true;
    }
  }
}
