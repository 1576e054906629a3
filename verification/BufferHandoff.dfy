/** The hand-off of capture buffers between the V4L2 driver, Capture_Thread and Encoder_Thread:
    one mutex, one semaphore and one FIFO, over every interleaving of the two threads' steps. */
module BufferHandoff {
  import opened Fifos

  /** Where Capture_Thread is: before DQBUF, with a buffer, in the critical section before and
      after FIFO_Push, and between the unlock and sem_post. */
  datatype CapturePc = Ready | Holding(b: nat) | Entered(b: nat) | Pushed | Posting

  /** Where Encoder_Thread is: before and after sem_wait, in the critical section before and after
      FIFO_Pop, with a buffer before and after the display layer is set, until its QBUF, and in
      AwEncoderWriteYUVdata for the buffer it gave back last. `Nothing` stands for a pop that found
      no buffer. */
  datatype EncoderPc =
    | Waiting | Granted | Locked | Popped(b: nat) | Showing(b: nat) | Encoding(b: nat) | Writing(b: nat) | Nothing

  /** The capture buffer the display layer scans out, if any; with a decoder it is given the memory
      of the decoder instead. */
  datatype Screen = NoBuffer | Buffer(b: nat)

  datatype Mutex = Free | ByCapture | ByEncoder

  /** flag_UsePhyBuf and flag_decoder. */
  datatype Flags = Flags(usePhyBuf: bool, decoder: bool)

  /** `first` is a frame count of zero. */
  datatype State = State(
    n: nat, flags: Flags, first: bool, driver: set<nat>, capture: CapturePc, fifo: seq<nat>, sem: nat,
    encoder: EncoderPc, screen: Screen, mutex: Mutex, captured: seq<nat>, finished: seq<nat>, dropped: seq<nat>)

  /** One atomic step. The driver may give back any buffer it has. */
  datatype Action =
    | Dqbuf(b: nat) | DqbufFails | CaptureLock | Push | CaptureUnlock | Post
    | SemWait | EncoderLock | Pop | EncoderUnlock | Show | Qbuf | Write | DecoderFailed

  function Buffers(n: nat): (bs: set<nat>)
    ensures forall b: nat :: b in bs <==> b < n
  {
    if n == 0 then {} else Buffers(n - 1) + {n - 1}
  }

  /** All `n` buffers are queued before the threads start, and the semaphore is zero. */
  function Start(n: nat, flags: Flags): State {
    State(n, flags, true, Buffers(n), Ready, [], 0, Waiting, NoBuffer, Free, [], [], [])
  }

  predicate Enabled(s: State, a: Action) {
    match a
    case Dqbuf(b) => s.capture.Ready? && b in s.driver
    case DqbufFails => s.capture.Ready?
    case CaptureLock => s.capture.Holding? && s.mutex.Free?
    case Push => s.capture.Entered?
    case CaptureUnlock => s.capture.Pushed?
    case Post => s.capture.Posting?
    case SemWait => s.encoder.Waiting? && s.sem > 0
    case EncoderLock => s.encoder.Granted? && s.mutex.Free?
    case Pop => s.encoder.Locked?
    case EncoderUnlock => s.encoder.Popped?
    case Show => s.encoder.Showing?
    case Qbuf => s.encoder.Encoding?
    case Write => s.encoder.Writing?
    case DecoderFailed => s.encoder.Writing? && s.flags.decoder
  }

  /** FIFO_Creat makes room for 2n buffers; a push on a full FIFO drops the buffer, and a pop from
      an empty one yields none. The first buffer is given back without being encoded. */
  function Apply(s: State, a: Action): State
    requires Enabled(s, a)
  {
    match a
    case Dqbuf(b) => s.(driver := s.driver - {b}, capture := Holding(b), captured := s.captured + [b])
    case DqbufFails => s
    case CaptureLock => s.(capture := Entered(s.capture.b), mutex := ByCapture)
    case Push =>
      if |s.fifo| == 2 * s.n then s.(capture := Pushed, dropped := s.dropped + [s.capture.b])
      else s.(capture := Pushed, fifo := s.fifo + [s.capture.b])
    case CaptureUnlock => s.(capture := Posting, mutex := Free)
    case Post => s.(capture := Ready, sem := s.sem + 1)
    case SemWait => s.(encoder := Granted, sem := s.sem - 1)
    case EncoderLock => s.(encoder := Locked, mutex := ByEncoder)
    case Pop => if s.fifo == [] then s.(encoder := Nothing) else s.(encoder := Popped(s.fifo[0]), fifo := s.fifo[1..])
    case EncoderUnlock => s.(encoder := Showing(s.encoder.b), mutex := Free)
    case Show => s.(encoder := Encoding(s.encoder.b), screen := if s.flags.decoder then s.screen else Buffer(s.encoder.b))
    case Qbuf =>
      s.(encoder := if s.first then Waiting else Writing(s.encoder.b), first := false,
         driver := s.driver + {s.encoder.b}, finished := s.finished + [s.encoder.b])
    case Write => s.(encoder := Waiting)
    case DecoderFailed => s.(encoder := Waiting)
  }

  /** A run: each action is enabled where it is taken. */
  predicate IsRun(s: State, actions: seq<Action>)
    decreases |actions|
  {
    actions == [] || (Enabled(s, actions[0]) && IsRun(Apply(s, actions[0]), actions[1..]))
  }

  function After(s: State, actions: seq<Action>): State
    requires IsRun(s, actions)
    decreases |actions|
  {
    if actions == [] then s else After(Apply(s, actions[0]), actions[1..])
  }

  // -- The invariant ----------------------------------------------------------------------

  function CaptureHas(s: State): seq<nat> {
    if s.capture.Holding? || s.capture.Entered? then [s.capture.b] else []
  }

  function EncoderHas(s: State): seq<nat> {
    if s.encoder.Popped? || s.encoder.Showing? || s.encoder.Encoding? then [s.encoder.b] else []
  }

  /** The buffers away from the driver, oldest first. */
  function InFlight(s: State): seq<nat> {
    EncoderHas(s) + s.fifo + CaptureHas(s)
  }

  ghost predicate Distinct(bs: seq<nat>) {
    forall j, k | 0 <= j < k < |bs| :: bs[j] != bs[k]
  }

  /** Each buffer is in exactly one place. */
  ghost predicate Owned(s: State) {
    && Distinct(InFlight(s))
    && (forall b | b in InFlight(s) :: b < s.n && b !in s.driver)
    && (forall b | b in s.driver :: b < s.n)
    && (forall b: nat | b < s.n :: b in s.driver || b in InFlight(s))
  }

  /** The semaphore, with the post and the wait that are under way, counts the FIFO. */
  predicate Counted(s: State) {
    |s.fifo| == s.sem + (if s.capture.Pushed? || s.capture.Posting? then 1 else 0)
                      + (if s.encoder.Granted? || s.encoder.Locked? then 1 else 0)
  }

  predicate MutexHeld(s: State) {
    && (s.mutex.ByCapture? <==> s.capture.Entered? || s.capture.Pushed?)
    && (s.mutex.ByEncoder? <==> s.encoder.Locked? || s.encoder.Popped?)
  }

  ghost predicate Inv(s: State) {
    && Owned(s) && Counted(s) && MutexHeld(s)
    && s.captured == s.finished + InFlight(s)
    && s.dropped == [] && !s.encoder.Nothing?
  }

  /** Distinct buffers below `n` are at most `n`. */
  lemma {:induction false} Pigeonhole(bs: seq<nat>, n: nat)
    requires Distinct(bs) && forall b | b in bs :: b < n
    ensures |bs| <= n
    decreases n
  {
    assert bs != [] ==> bs[0] in bs;
    if n == 0 {
    } else if k :| 0 <= k < |bs| && bs[k] == n - 1 {
      var rest := bs[..k] + bs[k + 1..];
      forall b | b in rest ensures b < n - 1 {
        var j :| 0 <= j < |rest| && rest[j] == b;
        var i := if j < k then j else j + 1;
        assert b == bs[i] && b in bs;
        assert bs[if i < k then i else k] != bs[if i < k then k else i];
      }
      Pigeonhole(rest, n - 1);
    } else {
      Pigeonhole(bs, n - 1);
    }
  }

  lemma {:induction false} Fits(s: State)
    requires Inv(s)
    ensures |InFlight(s)| <= s.n
  {
    Pigeonhole(InFlight(s), s.n);
  }

  lemma {:induction false} StartInv(n: nat, flags: Flags)
    ensures Inv(Start(n, flags))
  {
  }

  lemma {:induction false} Unmoved(s: State, t: State)
    requires Owned(s) && t.n == s.n && t.driver == s.driver && InFlight(t) == InFlight(s)
    ensures Owned(t)
  {
  }

  lemma {:induction false} Taken(s: State, t: State, b: nat)
    requires Owned(s) && b in s.driver && t.n == s.n && t.driver == s.driver - {b} && InFlight(t) == InFlight(s) + [b]
    ensures Owned(t)
  {
    hide InFlight;
  }

  lemma {:induction false} FirstLeaves(before: seq<nat>, after: seq<nat>, b: nat)
    requires Distinct(before) && before == [b] + after
    ensures Distinct(after) && b !in after && forall x: nat :: x in before <==> x == b || x in after
  {
    forall k | 0 <= k < |after| ensures after[k] == before[k + 1] && after[k] != before[0] {
    }
  }

  lemma {:induction false} Returned(s: State, t: State, b: nat)
    requires Owned(s) && t.n == s.n && t.driver == s.driver + {b} && InFlight(s) == [b] + InFlight(t)
    ensures Owned(t)
  {
    hide InFlight;
    FirstLeaves(InFlight(s), InFlight(t), b);
  }

  lemma {:induction false} StepFlight(s: State, a: Action)
    requires Enabled(s, a) && (a.Pop? ==> s.fifo != [])
    requires a.Push? ==> |s.fifo| < 2 * s.n
    ensures Apply(s, a).n == s.n
    ensures a.Dqbuf? ==>
      var t := Apply(s, a);
      && InFlight(t) == InFlight(s) + [a.b] && t.driver == s.driver - {a.b}
      && t.captured == s.captured + [a.b] && t.finished == s.finished
    ensures a.Qbuf? ==>
      var t, b := Apply(s, a), s.encoder.b;
      && InFlight(s) == [b] + InFlight(t) && t.driver == s.driver + {b}
      && t.captured == s.captured && t.finished == s.finished + [b]
    ensures !a.Dqbuf? && !a.Qbuf? ==>
      var t := Apply(s, a);
      && InFlight(t) == InFlight(s) && t.driver == s.driver
      && t.captured == s.captured && t.finished == s.finished
  {
  }

  lemma {:induction false} StepOwned(s: State, a: Action)
    requires Inv(s) && Enabled(s, a) && |InFlight(s)| <= s.n
    ensures Owned(Apply(s, a)) && Apply(s, a).captured == Apply(s, a).finished + InFlight(Apply(s, a))
  {
    hide Owned, Apply, InFlight;
    FifoRoom(s);
    StepFlight(s, a);
    var t := Apply(s, a);
    if a.Dqbuf? {
      Taken(s, t, a.b);
    } else if a.Qbuf? {
      Returned(s, t, s.encoder.b);
    } else {
      Unmoved(s, t);
    }
  }

  lemma {:induction false} FifoRoom(s: State)
    ensures |InFlight(s)| == |EncoderHas(s)| + |s.fifo| + |CaptureHas(s)|
  {
  }

  lemma {:induction false} StepInv(s: State, a: Action)
    requires Inv(s) && Enabled(s, a)
    ensures Inv(Apply(s, a))
  {
    hide Owned, InFlight;
    Fits(s);
    FifoRoom(s);
    StepOwned(s, a);
  }

  /** In every interleaving, for any number of buffers: each buffer is with the driver, the capture
      thread, the FIFO or the encoder, and with one of them only; no pop finds the FIFO empty, no
      push finds it full; and buffers are finished in the order in which they were captured. */
  lemma {:induction false} HandoffIsSafe(s: State, actions: seq<Action>)
    requires Inv(s) && IsRun(s, actions)
    ensures var t := After(s, actions);
            && Inv(t)
            && (t.encoder.Locked? ==> t.fifo != [])
            && (t.capture.Entered? ==> |t.fifo| < t.n)
            && t.finished <= t.captured
            && !(t.capture.Entered? && t.encoder.Locked?)
    decreases |actions|
  {
    if actions == [] {
      Fits(s);
    } else {
      StepInv(s, actions[0]);
      HandoffIsSafe(Apply(s, actions[0]), actions[1..]);
    }
  }

  /** So from the start of the two threads on. */
  lemma {:induction false} HandoffFromStart(n: nat, flags: Flags, actions: seq<Action>)
    requires IsRun(Start(n, flags), actions)
    ensures var t := After(Start(n, flags), actions);
            && Distinct(InFlight(t)) && (forall b: nat | b < n :: b in t.driver <==> b !in InFlight(t))
            && t.captured == t.finished + InFlight(t) && t.dropped == [] && !t.encoder.Nothing?
  {
    StartInv(n, flags);
    HandoffIsSafe(Start(n, flags), actions);
    SameBuffers(Start(n, flags), actions);
  }

  lemma {:induction false} SameBuffers(s: State, actions: seq<Action>)
    requires IsRun(s, actions)
    ensures After(s, actions).n == s.n && After(s, actions).flags == s.flags
    decreases |actions|
  {
    if actions != [] {
      SameBuffers(Apply(s, actions[0]), actions[1..]);
    }
  }

  /** With at least one buffer there is never a deadlock. */
  lemma {:induction false} NoDeadlock(s: State)
    requires Inv(s) && s.n > 0
    ensures exists a: Action :: !a.DqbufFails? && Enabled(s, a)
  {
    match s.capture
    case Holding(_) =>
      if s.mutex.Free? { assert Enabled(s, CaptureLock); }
      else { assert Enabled(s, Pop) || Enabled(s, EncoderUnlock); }
    case Entered(_) => assert Enabled(s, Push);
    case Pushed => assert Enabled(s, CaptureUnlock);
    case Posting => assert Enabled(s, Post);
    case Ready =>
      match s.encoder
      case Granted => assert Enabled(s, EncoderLock);
      case Locked => assert Enabled(s, Pop);
      case Popped(_) => assert Enabled(s, EncoderUnlock);
      case Showing(_) => assert Enabled(s, Show);
      case Encoding(_) => assert Enabled(s, Qbuf);
      case Writing(_) => assert Enabled(s, Write);
      case Waiting =>
        if s.sem > 0 { assert Enabled(s, SemWait); }
        else {
          assert InFlight(s) == [];
          assert 0 in s.driver;
          assert Enabled(s, Dqbuf(0));
        }
  }

  // -- Reading after QBUF -----------------------------------------------------------------

  /** The encoder thread reads buffer `b` until its QBUF, and beyond it when the encoder takes the
      physical address of the capture buffer itself. */
  predicate EncoderReads(s: State, b: nat) {
    s.encoder == Encoding(b) || (s.encoder == Writing(b) && s.flags.usePhyBuf && !s.flags.decoder)
  }

  /** The display layer scans its buffer out until it is given another one. */
  predicate Reads(s: State, b: nat) {
    EncoderReads(s, b) || s.screen == Buffer(b)
  }

  /** No buffer is read, by the encoder or by anyone, while the driver may fill it. */
  ghost predicate EncoderReadsOwn(s: State) {
    forall b | EncoderReads(s, b) :: b !in s.driver
  }

  ghost predicate ReadsOwn(s: State) {
    forall b | Reads(s, b) :: b !in s.driver
  }

  ghost predicate EncoderAlwaysReadsOwn(n: nat, flags: Flags) {
    forall actions | IsRun(Start(n, flags), actions) :: EncoderReadsOwn(After(Start(n, flags), actions))
  }

  ghost predicate AlwaysReadsOwn(n: nat, flags: Flags) {
    forall actions | IsRun(Start(n, flags), actions) :: ReadsOwn(After(Start(n, flags), actions))
  }

  /** One buffer goes round: the steps of the capture thread, then those of the encoder thread. */
  function Captured(b: nat): seq<Action> {
    [Dqbuf(b), CaptureLock, Push, CaptureUnlock, Post]
  }

  function Encoded(): seq<Action> {
    [SemWait, EncoderLock, Pop, EncoderUnlock, Show, Qbuf]
  }

  predicate Idle(s: State) {
    s.capture.Ready? && s.fifo == [] && s.sem == 0 && s.encoder.Waiting? && s.mutex.Free?
  }

  lemma {:induction false} Ahead(s: State, a: Action, rest: seq<Action>)
    requires Enabled(s, a) && IsRun(Apply(s, a), rest)
    ensures IsRun(s, [a] + rest) && After(s, [a] + rest) == After(Apply(s, a), rest)
  {
    assert ([a] + rest)[1..] == rest;
  }

  lemma {:induction false} AfterConcat(s: State, a: seq<Action>, b: seq<Action>)
    requires IsRun(s, a) && IsRun(After(s, a), b)
    ensures IsRun(s, a + b) && After(s, a + b) == After(After(s, a), b)
    decreases |a|
  {
    if a == [] {
      assert a + b == b;
    } else {
      assert (a + b)[1..] == a[1..] + b;
      AfterConcat(Apply(s, a[0]), a[1..], b);
    }
  }

  lemma {:induction false} CaptureHalf(s: State, b: nat)
    requires Idle(s) && b in s.driver && s.n > 0
    ensures var half := Captured(b);
            IsRun(s, half) &&
            After(s, half) == s.(driver := s.driver - {b}, fifo := [b], sem := 1, captured := s.captured + [b])
  {
    var s1 := Apply(s, Dqbuf(b));
    var s2 := Apply(s1, CaptureLock);
    var s3 := Apply(s2, Push);
    var s4 := Apply(s3, CaptureUnlock);
    assert Captured(b) == [Dqbuf(b)] + ([CaptureLock] + ([Push] + ([CaptureUnlock] + ([Post] + []))));
    Ahead(s4, Post, []);
    Ahead(s3, CaptureUnlock, [Post] + []);
    Ahead(s2, Push, [CaptureUnlock] + ([Post] + []));
    Ahead(s1, CaptureLock, [Push] + ([CaptureUnlock] + ([Post] + [])));
    Ahead(s, Dqbuf(b), [CaptureLock] + ([Push] + ([CaptureUnlock] + ([Post] + []))));
  }

  lemma {:induction false} EncoderHalf(s: State, b: nat)
    requires s.capture.Ready? && s.fifo == [b] && s.sem == 1 && s.encoder.Waiting? && s.mutex.Free?
    ensures var half := Encoded();
            IsRun(s, half) &&
            After(s, half) == s.(driver := s.driver + {b}, fifo := [], sem := 0, finished := s.finished + [b],
                                 first := false, encoder := if s.first then Waiting else Writing(b),
                                 screen := if s.flags.decoder then s.screen else Buffer(b))
  {
    var s1 := Apply(s, SemWait);
    var s2 := Apply(s1, EncoderLock);
    var s3 := Apply(s2, Pop);
    var s4 := Apply(s3, EncoderUnlock);
    var s5 := Apply(s4, Show);
    assert Encoded() == [SemWait] + ([EncoderLock] + ([Pop] + ([EncoderUnlock] + ([Show] + ([Qbuf] + [])))));
    Ahead(s5, Qbuf, []);
    Ahead(s4, Show, [Qbuf] + []);
    Ahead(s3, EncoderUnlock, [Show] + ([Qbuf] + []));
    Ahead(s2, Pop, [EncoderUnlock] + ([Show] + ([Qbuf] + [])));
    Ahead(s1, EncoderLock, [Pop] + ([EncoderUnlock] + ([Show] + ([Qbuf] + []))));
    Ahead(s, SemWait, [EncoderLock] + ([Pop] + ([EncoderUnlock] + ([Show] + ([Qbuf] + [])))));
  }

  lemma {:induction false} OneRound(s: State, b: nat)
    requires Idle(s) && b in s.driver && s.n > 0
    ensures IsRun(s, (Captured(b) + Encoded()))
    ensures var t := After(s, (Captured(b) + Encoded()));
            && t.driver == s.driver && t.flags == s.flags && t.n == s.n && !t.first
            && t.encoder == (if s.first then Waiting else Writing(b)) && (s.first ==> Idle(t))
            && t.capture.Ready? && t.fifo == [] && t.sem == 0 && t.mutex.Free?
            && t.captured == s.captured + [b] && t.finished == s.finished + [b]
            && (!s.flags.decoder ==> t.screen == Buffer(b))
  {
    hide IsRun, After;
    CaptureHalf(s, b);
    var t := After(s, Captured(b));
    EncoderHalf(t, b);
    AfterConcat(s, Captured(b), Encoded());
    assert s.driver - {b} + {b} == s.driver;
  }

  /** The end of a round: the frame is written, or with a decoder may be given up; the first one is
      not encoded at all. */
  function Ending(s: State, failed: bool): seq<Action> {
    if s.first then [] else if failed && s.flags.decoder then [DecoderFailed] else [Write]
  }

  /** One buffer goes all the way round, whether or not it can be decoded, and the threads are where
      they were. */
  lemma {:induction false} FullRound(s: State, b: nat, failed: bool)
    requires Idle(s) && b in s.driver && s.n > 0
    ensures var round := Captured(b) + Encoded() + Ending(s, failed);
            && IsRun(s, round)
            && var t := After(s, round);
               Idle(t) && t.driver == s.driver && t.n == s.n && t.flags == s.flags && !t.first
               && t.captured == s.captured + [b] && t.finished == s.finished + [b]
  {
    hide IsRun, After, Captured, Encoded;
    OneRound(s, b);
    var half := Captured(b) + Encoded();
    var t, end := After(s, half), Ending(s, failed);
    if s.first {
      NoActions(t);
      AfterConcat(s, half, end);
    } else {
      LastAction(t, end[0]);
      AfterConcat(s, half, end);
    }
  }

  lemma {:induction false} NoActions(s: State)
    ensures IsRun(s, []) && After(s, []) == s
  {
  }

  lemma {:induction false} LastAction(s: State, a: Action)
    requires Enabled(s, a)
    ensures IsRun(s, [a]) && After(s, [a]) == Apply(s, a)
  {
    assert [a][1..] == [];
  }

  /** So any number of frames can go round, in any order of the buffers, each decoded or not. */
  lemma {:induction false} ManyRounds(s: State, bs: seq<nat>, failed: seq<bool>) returns (actions: seq<Action>)
    requires Idle(s) && s.n > 0 && |failed| == |bs| && forall k | 0 <= k < |bs| :: bs[k] in s.driver
    ensures IsRun(s, actions)
    ensures var t := After(s, actions); Idle(t) && t.driver == s.driver && t.finished == s.finished + bs
    decreases |bs|
  {
    hide IsRun, After, Captured, Encoded, Ending;
    if bs == [] {
      actions := [];
      NoActions(s);
      assert s.finished + [] == s.finished;
    } else {
      var round := Captured(bs[0]) + Encoded() + Ending(s, failed[0]);
      FullRound(s, bs[0], failed[0]);
      var t := After(s, round);
      var rest := ManyRounds(t, bs[1..], failed[1..]);
      AfterConcat(s, round, rest);
      actions := round + rest;
      assert s.finished + [bs[0]] + bs[1..] == s.finished + bs;
    }
  }

  /** A FIFO of 2n buffers that is full loses the buffer that is pushed; the capture thread goes on. */
  lemma {:induction false} FullPush(s: State)
    requires s.capture.Entered?
    ensures var t := Apply(s, Push);
            && t.capture == Pushed && t.mutex == s.mutex && t.driver == s.driver
            && if |s.fifo| == 2 * s.n then t.fifo == s.fifo && t.dropped == s.dropped + [s.capture.b]
               else t.fifo == s.fifo + [s.capture.b] && t.dropped == s.dropped
  {
  }

  /** A DQBUF may fail whenever it is tried, and then nothing has changed and it is tried again. */
  lemma {:induction false} FailedDqbuf(s: State)
    ensures Enabled(s, DqbufFails) <==> s.capture.Ready?
    ensures s.capture.Ready? ==> Apply(s, DqbufFails) == s
  {
  }

  /** In the state the invariant describes, the encoder reads a buffer of the driver's only after
      QBUF, by its physical address. */
  lemma {:induction false} ReadsOwnBuffer(s: State)
    requires Inv(s) && !(s.flags.usePhyBuf && !s.flags.decoder)
    ensures EncoderReadsOwn(s)
  {
    forall b | EncoderReads(s, b) ensures b !in s.driver {
      assert InFlight(s)[0] == b;
    }
  }

  /** Over every run, the encoder reads no buffer while the driver has it, if and only if it is not
      set to read capture buffers by their physical address. */
  lemma {:induction false} ReadsOwnUnlessPhysical(n: nat, flags: Flags)
    ensures EncoderAlwaysReadsOwn(n, flags) <==> n == 0 || !(flags.usePhyBuf && !flags.decoder)
  {
    var s := Start(n, flags);
    if n == 0 || !(flags.usePhyBuf && !flags.decoder) {
      forall actions | IsRun(s, actions) ensures EncoderReadsOwn(After(s, actions)) {
        StartInv(n, flags);
        HandoffIsSafe(s, actions);
        SameBuffers(s, actions);
        if n == 0 { NoBuffers(After(s, actions)); } else { ReadsOwnBuffer(After(s, actions)); }
      }
    } else {
      OneRound(s, 0);
      var t := After(s, (Captured(0) + Encoded()));
      OneRound(t, 0);
      AfterConcat(s, (Captured(0) + Encoded()), (Captured(0) + Encoded()));
      assert EncoderReads(After(s, (Captured(0) + Encoded()) + (Captured(0) + Encoded())), 0);
      assert !EncoderReadsOwn(After(s, (Captured(0) + Encoded()) + (Captured(0) + Encoded())));
    }
  }

  lemma {:induction false} NoBuffers(s: State)
    requires Inv(s) && s.n == 0
    ensures s.driver == {}
  {
  }

  /** With a decoder the display layer is never given a capture buffer. */
  lemma {:induction false} ScreenOfDecoder(s: State, actions: seq<Action>)
    requires IsRun(s, actions) && s.flags.decoder && s.screen == NoBuffer
    ensures After(s, actions).screen == NoBuffer
    decreases |actions|
  {
    if actions != [] {
      ScreenOfDecoder(Apply(s, actions[0]), actions[1..]);
    }
  }

  /** Over every run, no buffer is read at all while the driver has it, if and only if there is a
      decoder: without one the display layer goes on scanning out the buffer that was given back, the
      first frame included, whether or not physical addresses are used. */
  lemma {:induction false} ReadsOwnIffDecoder(n: nat, flags: Flags)
    ensures AlwaysReadsOwn(n, flags) <==> n == 0 || flags.decoder
  {
    var s := Start(n, flags);
    if n == 0 || flags.decoder {
      forall actions | IsRun(s, actions) ensures ReadsOwn(After(s, actions)) {
        StartInv(n, flags);
        HandoffIsSafe(s, actions);
        SameBuffers(s, actions);
        if n == 0 {
          NoBuffers(After(s, actions));
        } else {
          ReadsOwnBuffer(After(s, actions));
          ScreenOfDecoder(s, actions);
        }
      }
    } else {
      OneRound(s, 0);
      assert Reads(After(s, (Captured(0) + Encoded())), 0);
      assert !ReadsOwn(After(s, (Captured(0) + Encoded())));
    }
  }

  // -- The steps on the ring buffer itself --------------------------------------------------

  /** vecoo/cameratest/src/camera_capture.c:196-200: the ring takes the buffer. */
  method CapturePush(ring: Fifo<nat>, b: nat, ghost s: State)
    requires Inv(s) && s.capture == Entered(b)
    requires ring.Valid() && ring.nodeMax == 2 * s.n && ring.contents == s.fifo
    modifies ring, ring.dataBuff
    ensures ring.Valid() && ring.contents == Apply(s, Push).fifo == s.fifo + [b]
  {
    Fits(s);
    var _ := ring.Push(b);
  }

  /** vecoo/cameratest/src/camera_encoder.c:226-229: the ring yields the oldest captured buffer. */
  method EncoderPop(ring: Fifo<nat>, previous: nat, ghost s: State) returns (b: nat)
    requires Inv(s) && s.encoder.Locked?
    requires ring.Valid() && ring.nodeMax == 2 * s.n && ring.contents == s.fifo
    modifies ring
    ensures ring.Valid() && ring.contents == Apply(s, Pop).fifo && Apply(s, Pop).encoder == Popped(b)
    ensures b == s.captured[|s.finished|]
  {
    var _, x := ring.Pop(previous);
    b := x;
  }
}
