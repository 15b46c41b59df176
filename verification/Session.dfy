/**
 The session base shared by the module layers: establishing a link with retries and quiet periods,
 interruptible by queued commands, and tearing it down again.
 */
module Session {
  import opened Wrappers
  import opened ByteStrings
  import opened Frame
  import opened Bus
  import K = KLine
  import P = Kwp2000
  import Readers

  /** Functional or physical addressing, and a tester address of its own if it has one. */
  datatype Variant = Variant(functional: bool, source: Option<byte>)

  /** What follows a successful init: nothing, or session and SecurityAccess with a seed-to-key function. */
  datatype After = Nothing | Unlock(key: (byte, byte) -> (byte, byte))

  datatype Plan = Plan(
    link: P.Link, idle: nat, attempts: nat, retrySleep: nat,
    variants: seq<Variant>, hooked: bool, after: After)
  {
    function VariantAt(i: nat): Variant
      requires variants != []
    {
      variants[i % |variants|]
    }

    function InitAt(i: nat): Bytes
      requires variants != []
    {
      var v := VariantAt(i);
      K.InitFrame(link.target, if v.source.Some? then v.source.value else link.source, v.functional)
    }
  }

  /** The wire, the batches of commands other threads will queue, and how many are waiting. */
  datatype Env = Env(wire: Wire, arrivals: seq<nat>, queued: nat)
  {
    function Logged(e: Event): Env {
      this.(wire := wire.(log := wire.log + [e]))
    }

    /** Time passes: the next batch of commands, possibly none, is queued. */
    function Tick(): Env {
      if arrivals == [] then this
      else
        var rest := this.(arrivals := arrivals[1..]);
        if arrivals[0] == 0 then rest
        else rest.(queued := queued + arrivals[0]).Logged(Arrived(arrivals[0]))
    }
  }

  datatype Ending = Established(c1: Bytes) | Failed | Aborted

  const SLICE := 200

  // ---- sleeping -------------------------------------------------------- //

  /** Sleep in slices; give up as soon as a command is waiting. */
  function Slices(e: Env, remaining: nat): (bool, Env)
    decreases remaining
  {
    if e.queued > 0 then (false, e.Logged(Interrupted))
    else if remaining == 0 then (true, e)
    else Slices(e.Tick(), if remaining <= SLICE then 0 else remaining - SLICE)
  }

  /** `time.sleep`, or the server's interruptible version of it. */
  function Sleep(e: Env, ms: nat, hooked: bool): (bool, Env) {
    if !hooked then (true, e.Logged(Slept(ms)))
    else
      var (whole, e') := Slices(e, ms);
      if whole then (true, e'.Logged(Slept(ms))) else (false, e')
  }

  // ---- requests -------------------------------------------------------- //

  function Call(e: Env, link: P.Link, service: byte, payload: Bytes, retries: nat)
    : (Result<Bytes, P.KwpError>, Env)
  {
    var before := e.Tick();
    var r := P.Request(before.wire, link, service, payload, retries);
    (r.result, before.(wire := r.wire).Tick())
  }

  function StopCommunication(e: Env, link: P.Link): Env {
    Call(e, link, P.STOP_COMMUNICATION, [], 0).1
  }

  function StartCommunication(e: Env, plan: Plan, i: nat): (Result<Bytes, K.KLineError>, Env)
    requires plan.variants != []
  {
    var v := plan.VariantAt(i);
    var before := e.Tick();
    var r := K.FastInitTolerant(
      before.wire, plan.link.target, if v.source.Some? then v.source.value else plan.link.source, v.functional);
    (r.result, before.(wire := r.wire).Tick())
  }

  const START_DIAGNOSTIC_SESSION: byte := 0x10
  const TD5_SESSION: byte := 0xA0
  const SECURITY_ACCESS: byte := 0x27

  /** Diagnostic session, seed, key: does all of it succeed? */
  function Connect(e: Env, link: P.Link, key: (byte, byte) -> (byte, byte)): (bool, Env) {
    var (session, e1) := Call(e, link, START_DIAGNOSTIC_SESSION, [TD5_SESSION], 2);
    if session.Err? then (false, e1)
    else
      var (seed, e2) := Call(e1, link, SECURITY_ACCESS, [1], 2);
      if seed.Err? || |seed.value| < 3 then (false, e2)
      else
        var k := key(seed.value[1], seed.value[2]);
        var (sent, e3) := Call(e2, link, SECURITY_ACCESS, [2, k.0, k.1], 2);
        (sent.Ok?, e3)
  }

  // ---- establishing ---------------------------------------------------- //

  /** Attempt `i`: the init, then the follow-up if there is one, even when the init went unanswered. */
  function TryOnce(e: Env, plan: Plan, i: nat): (Option<Bytes>, Env)
    requires plan.variants != []
  {
    var (init, e1) := StartCommunication(e, plan, i);
    match plan.after
    case Nothing => (if init.Ok? then Some(init.value) else None, e1)
    case Unlock(key) =>
      var (unlocked, e2) := Connect(e1, plan.link, key);
      (if !unlocked then None else if init.Ok? then Some(init.value) else Some([]), e2)
  }

  /** Attempts `i`, `i + 1`, ... */
  function Rounds(e: Env, plan: Plan, i: nat): (Ending, Env)
    requires plan.variants != [] && i <= plan.attempts
    decreases plan.attempts - i
  {
    if i == plan.attempts then (Failed, e)
    else
      var (c1, tried) := TryOnce(e, plan, i);
      if c1.Some? then (Established(c1.value), tried)
      else
        var (whole, rested) := Sleep(tried, plan.retrySleep, plan.hooked);
        if whole then Rounds(rested, plan, i + 1) else (Aborted, rested)
  }

  function Establish(e: Env, plan: Plan): (Ending, Env)
    requires plan.variants != []
  {
    var (whole, settled) := Sleep(StopCommunication(e, plan.link), plan.idle, plan.hooked);
    if whole then Rounds(settled, plan, 0) else (Aborted, settled)
  }

  // ---- the trace when no command arrives ------------------------------- //

  function StopFrame(link: P.Link): Bytes {
    var f := P.Encoded(link, P.STOP_COMMUNICATION, []);
    if f.Ok? then f.value else []
  }

  /** What the tolerant init makes of the bus's answer to attempt `i`; StopCommunication took the first answer. */
  function InitAnswer(plan: Plan, replies: seq<seq<Rx>>, i: nat): Result<Bytes, K.KLineError>
    requires plan.variants != []
  {
    K.AnswerInBurst(K.BurstRead(K.ReplyTo(replies, i + 1), false).bytes, plan.InitAt(i), plan.VariantAt(i).functional)
  }

  /** The first attempt from `i` on that the bus answers, or `attempts`. */
  function FirstAnswered(plan: Plan, replies: seq<seq<Rx>>, i: nat): (k: nat)
    requires plan.variants != [] && i <= plan.attempts
    ensures i <= k <= plan.attempts
    decreases plan.attempts - i
  {
    if i == plan.attempts || InitAnswer(plan, replies, i).Ok? then i
    else FirstAnswered(plan, replies, i + 1)
  }

  lemma {:induction false} FirstAnsweredIsFirst(plan: Plan, replies: seq<seq<Rx>>, i: nat)
    requires plan.variants != [] && i <= plan.attempts
    ensures var k := FirstAnswered(plan, replies, i);
            && (k < plan.attempts ==> InitAnswer(plan, replies, k).Ok?)
            && forall j | i <= j < k :: InitAnswer(plan, replies, j).Err?
    decreases plan.attempts - i
  {
    hide InitAnswer;
    if i < plan.attempts && InitAnswer(plan, replies, i).Err? {
      FirstAnsweredIsFirst(plan, replies, i + 1);
    }
  }

  function EndingAt(plan: Plan, replies: seq<seq<Rx>>, k: nat): Ending
    requires plan.variants != []
  {
    if k == plan.attempts then Failed
    else match InitAnswer(plan, replies, k)
      case Ok(c1) => Established(c1)
      case Err(_) => Failed
  }

  /** Failed attempts `i..k`, each followed by its full quiet period, then attempt `k` if there is one. */
  function AttemptsTrace(plan: Plan, i: nat, k: nat): seq<Event>
    requires plan.variants != [] && i <= k
    decreases k - i
  {
    if i < k then [Sent(plan.InitAt(i)), Slept(plan.retrySleep)] + AttemptsTrace(plan, i + 1, k)
    else if k < plan.attempts then [Sent(plan.InitAt(k))]
    else []
  }

  lemma SleepsThrough(e: Env, ms: nat, hooked: bool)
    requires e.arrivals == [] && e.queued == 0
    ensures Sleep(e, ms, hooked) == (true, e.Logged(Slept(ms)))
  {
    UndisturbedSlices(e, ms);
  }

  lemma {:induction false} UndisturbedSlices(e: Env, remaining: nat)
    requires e.arrivals == [] && e.queued == 0
    ensures Slices(e, remaining) == (true, e)
    decreases remaining
  {
    if remaining > 0 {
      UndisturbedSlices(e, if remaining <= SLICE then 0 else remaining - SLICE);
    }
  }

  /** A request that is not repeated sends its frame once and uses up one answer of the bus. */
  lemma UnrepeatedRequest(w: Wire, link: P.Link, service: byte, payload: Bytes)
    requires |payload| < 0xFF
    ensures var r := P.Request(w, link, service, payload, 0);
            && r.wire.log == w.log + [Sent(P.Encoded(link, service, payload).value)]
            && r.wire.replies == if w.replies == [] then [] else w.replies[1..]
  {
    hide Encode, P.Interpret, P.ExtractResponse, P.ResolvePending, K.Attempt, K.Converse;
    P.EncodedIsFrame(link, service, payload);
  }

  lemma ConverseHears(w: Wire, frame: Bytes)
    ensures var r := K.Converse(w, frame);
            r.0 == K.BurstRead(K.ReplyTo(w.replies, 0), false).bytes
  {
    hide K.BurstRead;
    assert w.replies != [] ==> [] + w.replies[0] == w.replies[0];
  }

  lemma InitUsesNextAnswer(e: Env, plan: Plan, i: nat, replies: seq<seq<Rx>>)
    requires plan.variants != [] && i < plan.attempts
    requires e.arrivals == []
    requires e.wire.replies == if i + 1 <= |replies| then replies[i + 1..] else []
    ensures var (init, e1) := StartCommunication(e, plan, i);
            && init == InitAnswer(plan, replies, i)
            && e1.arrivals == [] && e1.queued == e.queued
            && e1.wire.log == e.wire.log + [Sent(plan.InitAt(i))]
            && e1.wire.replies == if i + 2 <= |replies| then replies[i + 2..] else []
  {
    hide K.BurstRead, K.AnswerInBurst, K.InitFrame, K.Converse;
    ConverseHears(e.wire, plan.InitAt(i));
    assert K.ReplyTo(e.wire.replies, 0) == K.ReplyTo(replies, i + 1);
  }

  lemma {:induction false} RoundsWithoutCommands(e: Env, plan: Plan, i: nat, replies: seq<seq<Rx>>)
    requires plan.variants != [] && plan.after.Nothing? && i <= plan.attempts
    requires e.arrivals == [] && e.queued == 0
    requires e.wire.replies == if i + 1 <= |replies| then replies[i + 1..] else []
    ensures var k := FirstAnswered(plan, replies, i);
            var (ending, e') := Rounds(e, plan, i);
            && ending == EndingAt(plan, replies, k)
            && e'.wire.log == e.wire.log + AttemptsTrace(plan, i, k)
    decreases plan.attempts - i
  {
    hide StartCommunication, InitAnswer, Sleep, K.InitFrame;
    if i < plan.attempts {
      InitUsesNextAnswer(e, plan, i, replies);
      var (init, e1) := StartCommunication(e, plan, i);
      if init.Err? {
        SleepsThrough(e1, plan.retrySleep, plan.hooked);
        var e2 := e1.Logged(Slept(plan.retrySleep));
        RoundsWithoutCommands(e2, plan, i + 1, replies);
        var k := FirstAnswered(plan, replies, i);
        assert e2.wire.log == e.wire.log + [Sent(plan.InitAt(i)), Slept(plan.retrySleep)];
      }
    }
  }

  /** Every establishment opens with one StopCommunication and the idle silence. */
  lemma Settles(e: Env, plan: Plan) returns (settled: Env)
    requires e.arrivals == [] && e.queued == 0
    ensures Sleep(StopCommunication(e, plan.link), plan.idle, plan.hooked) == (true, settled)
    ensures settled.arrivals == [] && settled.queued == 0
    ensures settled.wire.log == e.wire.log + [Sent(StopFrame(plan.link)), Slept(plan.idle)]
    ensures settled.wire.replies == if e.wire.replies == [] then [] else e.wire.replies[1..]
  {
    hide P.Request, Encode;
    P.EncodedIsFrame(plan.link, P.STOP_COMMUNICATION, []);
    UnrepeatedRequest(e.wire, plan.link, P.STOP_COMMUNICATION, []);
    var stopped := StopCommunication(e, plan.link);
    SleepsThrough(stopped, plan.idle, plan.hooked);
    settled := stopped.Logged(Slept(plan.idle));
  }

  /** An undisturbed sleep takes as many slices as its length needs: the quiet period is a full one. */
  lemma {:induction false} SleepIsFullLength(e: Env, ms: nat)
    requires e.queued == 0 && |e.arrivals| >= (ms + SLICE - 1) / SLICE
    requires forall i | 0 <= i < (ms + SLICE - 1) / SLICE :: e.arrivals[i] == 0
    ensures Slices(e, ms) == (true, e.(arrivals := e.arrivals[(ms + SLICE - 1) / SLICE..]))
    decreases ms
  {
    if ms > 0 {
      var rest := if ms <= SLICE then 0 else ms - SLICE;
      assert (ms + SLICE - 1) / SLICE == (rest + SLICE - 1) / SLICE + 1;
      assert forall i | 0 <= i < (rest + SLICE - 1) / SLICE :: e.Tick().arrivals[i] == e.arrivals[i + 1];
      SleepIsFullLength(e.Tick(), rest);
    }
  }

  /**
   For a module without a follow-up the whole trace in closed form, for every pattern of bus answers: one
   StopCommunication, the idle silence, failed inits each followed by one full quiet period in which
   nothing is sent, then the first init that is answered. It fails exactly when none is.
   */
  lemma EstablishTraceWithoutFollowUp(e: Env, plan: Plan)
    requires plan.variants != [] && plan.after.Nothing?
    requires e.arrivals == [] && e.queued == 0
    ensures var replies := e.wire.replies;
            var k := FirstAnswered(plan, replies, 0);
            var (ending, e') := Establish(e, plan);
            && ending == EndingAt(plan, replies, k)
            && e'.wire.log == e.wire.log + [Sent(StopFrame(plan.link)), Slept(plan.idle)] + AttemptsTrace(plan, 0, k)
  {
    hide Rounds, Sleep, StopCommunication, InitAnswer, K.InitFrame;
    var settled := Settles(e, plan);
    RoundsWithoutCommands(settled, plan, 0, e.wire.replies);
  }

  /** StartCommunication goes out. */
  predicate IsInit(e: Event) {
    e.Sent? && |e.frame| == 5 && (e.frame[0] == 0x81 || e.frame[0] == 0xC1) && e.frame[3] == 0x81
  }

  // ---- with or without an unlocking step ------------------------------- //

  /** Traffic of the unlocking step: neither another init nor another StopCommunication. */
  predicate Chatter(link: P.Link, t: seq<Event>) {
    forall i | 0 <= i < |t| :: t[i].Sent? && !IsInit(t[i]) && t[i] != Sent(StopFrame(link))
  }

  predicate AllChatter(link: P.Link, chats: seq<seq<Event>>) {
    forall i | 0 <= i < |chats| :: Chatter(link, chats[i])
  }

  /** Attempts `i`, `i + 1`, ... with their unlocking traffic, each failed one followed by one quiet period. */
  function RoundsTrace(plan: Plan, i: nat, chats: seq<seq<Event>>, established: bool): seq<Event>
    requires plan.variants != []
    decreases |chats|
  {
    if chats == [] then []
    else
      [Sent(plan.InitAt(i))] + chats[0] + (if established && |chats| == 1 then [] else [Slept(plan.retrySleep)])
      + RoundsTrace(plan, i + 1, chats[1..], established)
  }

  /** Requests for different services are different frames. */
  lemma OtherServiceIsNotStop(link: P.Link, service: byte, payload: Bytes)
    requires service != P.STOP_COMMUNICATION && |payload| < 0xFF
    ensures P.Encoded(link, service, payload).Ok? && P.Encoded(link, service, payload).value != StopFrame(link)
  {
    hide Encode, Decode;
    DecodeEncode([service] + payload, link.target, link.source, link.addressed, false, []);
    DecodeEncode([P.STOP_COMMUNICATION] + [], link.target, link.source, link.addressed, false, []);
    assert ([service] + payload)[0] != ([P.STOP_COMMUNICATION] + [])[0];
  }

  lemma InitIsNotStop(plan: Plan, i: nat)
    requires plan.variants != []
    ensures plan.InitAt(i) != StopFrame(plan.link)
  {
    hide Encode, Decode;
    var v, link := plan.VariantAt(i), plan.link;
    var source := if v.source.Some? then v.source.value else link.source;
    DecodeEncode(K.START_COMMUNICATION, link.target, source, true, v.functional, []);
    DecodeEncode([P.STOP_COMMUNICATION] + [], link.target, link.source, link.addressed, false, []);
    assert K.START_COMMUNICATION[0] != ([P.STOP_COMMUNICATION] + [])[0];
  }

  lemma CallTrace(e: Env, link: P.Link, service: byte, payload: Bytes, retries: nat) returns (t: seq<Event>)
    requires e.arrivals == [] && service != 0x81 && service != P.STOP_COMMUNICATION && |payload| <= 3
    ensures var e' := Call(e, link, service, payload, retries).1;
            && e'.arrivals == [] && e'.queued == e.queued && e'.wire.log == e.wire.log + t && Chatter(link, t)
  {
    hide P.Interpret, P.ExtractResponse, P.ResolvePending, K.Converse, K.Exchange, StopFrame;
    P.EncodedIsFrame(link, service, payload);
    OtherServiceIsNotStop(link, service, payload);
    var frame := P.Encoded(link, service, payload).value;
    assert !IsInit(Sent(frame));
    var n := 1;
    if !link.tolerant {
      n := K.ExchangeSends(e.wire, frame, link.echo, retries);
    } else {
      assert K.Repeat(Sent(frame), 1) == [Sent(frame)];
    }
    t := K.Repeat(Sent(frame), n);
  }

  lemma ConnectTrace(e: Env, link: P.Link, key: (byte, byte) -> (byte, byte)) returns (t: seq<Event>)
    requires e.arrivals == []
    ensures var e' := Connect(e, link, key).1;
            && e'.arrivals == [] && e'.queued == e.queued && e'.wire.log == e.wire.log + t && Chatter(link, t)
            && Call(e, link, START_DIAGNOSTIC_SESSION, [TD5_SESSION], 2).1.wire.log <= e'.wire.log
  {
    hide Call, IsInit, StopFrame;
    t := CallTrace(e, link, START_DIAGNOSTIC_SESSION, [TD5_SESSION], 2);
    var (session, e1) := Call(e, link, START_DIAGNOSTIC_SESSION, [TD5_SESSION], 2);
    if session.Ok? {
      var t2 := CallTrace(e1, link, SECURITY_ACCESS, [1], 2);
      t := t + t2;
      var (seed, e2) := Call(e1, link, SECURITY_ACCESS, [1], 2);
      if seed.Ok? && |seed.value| >= 3 {
        var k := key(seed.value[1], seed.value[2]);
        var t3 := CallTrace(e2, link, SECURITY_ACCESS, [2, k.0, k.1], 2);
        t := t + t3;
      }
    }
  }

  lemma TryOnceTrace(e: Env, plan: Plan, i: nat) returns (chat: seq<Event>)
    requires plan.variants != [] && e.arrivals == []
    ensures var tried := TryOnce(e, plan, i).1;
            && tried.arrivals == [] && tried.queued == e.queued && Chatter(plan.link, chat)
            && (plan.after.Nothing? ==> chat == [])
            && tried.wire.log == e.wire.log + ([Sent(plan.InitAt(i))] + chat)
  {
    hide Connect, Chatter, StartCommunication, Call, StopFrame, K.InitFrame;
    StartTrace(e, plan, i);
    var started, init := StartCommunication(e, plan, i).1, [Sent(plan.InitAt(i))];
    if plan.after.Nothing? {
      chat := [];
      NoChatter(plan.link);
      assert init + chat == init;
    } else {
      chat := ConnectTrace(started, plan.link, plan.after.key);
      Associate(e.wire.log, init, chat);
    }
  }

  lemma Associate(log: seq<Event>, a: seq<Event>, b: seq<Event>)
    ensures log + a + b == log + (a + b)
  {
  }

  lemma StartTrace(e: Env, plan: Plan, i: nat)
    requires plan.variants != [] && e.arrivals == []
    ensures var e' := StartCommunication(e, plan, i).1;
            e'.arrivals == [] && e'.queued == e.queued && e'.wire.log == e.wire.log + [Sent(plan.InitAt(i))]
  {
    hide K.InitFrame, K.AnswerInBurst, K.Converse;
  }

  lemma NoChatter(link: P.Link)
    ensures Chatter(link, [])
  {
  }

  /** Attempt `i` has failed and its quiet period is over. */
  function Rested(e: Env, plan: Plan, i: nat): Env
    requires plan.variants != []
  {
    TryOnce(e, plan, i).1.Logged(Slept(plan.retrySleep))
  }

  /** Where attempt `j` begins, if the attempts from `i` at `e` on have failed. */
  function AttemptAt(e: Env, plan: Plan, i: nat, j: nat): Env
    requires plan.variants != []
    decreases j - i
  {
    if j <= i then e else AttemptAt(Rested(e, plan, i), plan, i + 1, j)
  }

  /** What attempt `j` then comes to: the answer to its init if it succeeds, unlocking included. */
  function Outcome(e: Env, plan: Plan, i: nat, j: nat): Option<Bytes>
    requires plan.variants != []
  {
    TryOnce(AttemptAt(e, plan, i, j), plan, j).0
  }

  /** The first attempt from `i` on that succeeds, or `attempts`. */
  function FirstSuccess(e: Env, plan: Plan, i: nat): (k: nat)
    requires plan.variants != [] && i <= plan.attempts
    ensures i <= k <= plan.attempts
    decreases plan.attempts - i
  {
    if i == plan.attempts || TryOnce(e, plan, i).0.Some? then i else FirstSuccess(Rested(e, plan, i), plan, i + 1)
  }

  lemma {:induction false} FirstSuccessIsFirst(e: Env, plan: Plan, i: nat)
    requires plan.variants != [] && i <= plan.attempts
    ensures var k := FirstSuccess(e, plan, i);
            && (k < plan.attempts ==> Outcome(e, plan, i, k).Some?)
            && forall j | i <= j < k :: Outcome(e, plan, i, j).None?
    decreases plan.attempts - i
  {
    hide TryOnce, Rested;
    if i < plan.attempts && TryOnce(e, plan, i).0.None? {
      FirstSuccessIsFirst(Rested(e, plan, i), plan, i + 1);
      assert forall j | i < j :: Outcome(e, plan, i, j) == Outcome(Rested(e, plan, i), plan, i + 1, j);
    }
  }

  lemma {:induction false} AnyRoundsTrace(e: Env, plan: Plan, i: nat) returns (chats: seq<seq<Event>>)
    requires plan.variants != [] && i <= plan.attempts && e.arrivals == [] && e.queued == 0
    ensures var k := FirstSuccess(e, plan, i);
            var (ending, e') := Rounds(e, plan, i);
            && AllChatter(plan.link, chats) && |chats| == (if k == plan.attempts then k else k + 1) - i
            && (k == plan.attempts ==> ending == Failed)
            && (k < plan.attempts ==> Outcome(e, plan, i, k).Some? && ending == Established(Outcome(e, plan, i, k).value))
            && (plan.after.Nothing? ==> forall j | 0 <= j < |chats| :: chats[j] == [])
            && e'.wire.log == e.wire.log + RoundsTrace(plan, i, chats, k < plan.attempts)
            && (i < plan.attempts ==> TryOnce(e, plan, i).1.wire.log <= e'.wire.log)
    decreases plan.attempts - i
  {
    hide TryOnce, Sleep, Chatter, StopFrame, K.InitFrame, RoundsTrace;
    chats := [];
    NoRounds(plan, i, true);
    NoRounds(plan, i, false);
    if i < plan.attempts {
      var chat := TryOnceTrace(e, plan, i);
      var (c1, tried) := TryOnce(e, plan, i);
      if c1.Some? {
        NoRounds(plan, i + 1, true);
        RoundsTraceFront(plan, i, chat, [], true);
        assert [chat] + [] == [chat];
      } else {
        SleepsThrough(tried, plan.retrySleep, plan.hooked);
        var rested := Rested(e, plan, i);
        chats := AnyRoundsTrace(rested, plan, i + 1);
        var established := FirstSuccess(e, plan, i) < plan.attempts;
        RoundsTraceFront(plan, i, chat, chats, established);
        var a, quiet := [Sent(plan.InitAt(i))] + chat, [Slept(plan.retrySleep)];
        Associate(e.wire.log, a, quiet);
        Associate(e.wire.log, a + quiet, RoundsTrace(plan, i + 1, chats, established));
      }
      chats := [chat] + chats;
    }
  }

  lemma NoRounds(plan: Plan, i: nat, established: bool)
    requires plan.variants != []
    ensures RoundsTrace(plan, i, [], established) == []
  {
  }

  lemma RoundsTraceFront(plan: Plan, i: nat, chat: seq<Event>, chats: seq<seq<Event>>, established: bool)
    requires plan.variants != []
    ensures RoundsTrace(plan, i, [chat] + chats, established)
         == [Sent(plan.InitAt(i))] + chat + (if established && chats == [] then [] else [Slept(plan.retrySleep)])
            + RoundsTrace(plan, i + 1, chats, established)
  {
    hide K.InitFrame;
    assert ([chat] + chats)[1..] == chats;
  }

  lemma {:induction false} NoStopInRounds(plan: Plan, i: nat, chats: seq<seq<Event>>, established: bool)
    requires plan.variants != [] && AllChatter(plan.link, chats)
    ensures forall m | 0 <= m < |RoundsTrace(plan, i, chats, established)| ::
              RoundsTrace(plan, i, chats, established)[m] != Sent(StopFrame(plan.link))
    decreases |chats|
  {
    hide StopFrame, IsInit, K.InitFrame;
    if chats != [] {
      InitIsNotStop(plan, i);
      NoStopInRounds(plan, i + 1, chats[1..], established);
    }
  }

  /**
   Every establishment, with an unlocking step or without, whatever the bus answers. It sends exactly one
   StopCommunication, first of all, and keeps the idle silence. Then come its inits in variant order, each
   with its unlocking traffic, and one full quiet period without traffic after every attempt that fails.
   It ends with the first attempt that succeeds, and fails exactly when none of the `attempts` does.
   */
  lemma EstablishTrace(e: Env, plan: Plan) returns (settled: Env, k: nat, chats: seq<seq<Event>>)
    requires plan.variants != [] && e.arrivals == [] && e.queued == 0
    ensures settled.wire.log == e.wire.log + [Sent(StopFrame(plan.link)), Slept(plan.idle)]
    ensures k <= plan.attempts && forall j | 0 <= j < k :: Outcome(settled, plan, 0, j).None?
    ensures var (ending, e') := Establish(e, plan);
            && (if k == plan.attempts then ending == Failed
                else Outcome(settled, plan, 0, k).Some? && ending == Established(Outcome(settled, plan, 0, k).value))
            && AllChatter(plan.link, chats) && |chats| == (if k == plan.attempts then k else k + 1)
            && (plan.after.Nothing? ==> forall j | 0 <= j < |chats| :: chats[j] == [])
            && e'.wire.log == settled.wire.log + RoundsTrace(plan, 0, chats, k < plan.attempts)
            && forall m | |settled.wire.log| <= m < |e'.wire.log| :: e'.wire.log[m] != Sent(StopFrame(plan.link))
  {
    hide Rounds, Sleep, StopCommunication, K.InitFrame, IsInit, Outcome, StopFrame;
    settled := Settles(e, plan);
    k := FirstSuccess(settled, plan, 0);
    FirstSuccessIsFirst(settled, plan, 0);
    chats := AnyRoundsTrace(settled, plan, 0);
    NoStopInRounds(plan, 0, chats, k < plan.attempts);
  }

  // ---- single requests ------------------------------------------------- //

  /** `10 A0` as it goes out in a session. */
  const SESSION_FRAME: Bytes := [0x02, 0x10, 0xA0, 0xB2]

  /** `27 01` */
  const SEED_FRAME: Bytes := [0x02, 0x27, 0x01, 0x2A]

  /** One tolerant call: one frame out, and the verdict on what is heard. */
  lemma TolerantCall(e: Env, link: P.Link, service: byte, payload: Bytes, frame: Bytes)
    requires link.tolerant && e.arrivals == [] && P.Encoded(link, service, payload) == Ok(frame)
    ensures var (r, e') := Call(e, link, service, payload, 2);
            && r == Readers.Tolerant(K.BurstRead(K.ReplyTo(e.wire.replies, 0), false).bytes, service, payload)
            && e'.arrivals == [] && e'.queued == e.queued && e'.wire.log == e.wire.log + [Sent(frame)]
            && e'.wire.replies == if e.wire.replies == [] then [] else e.wire.replies[1..]
  {
    hide Encode, K.BurstRead, K.Converse, P.Interpret, P.ExtractResponse;
    ConverseHears(e.wire, frame);
  }

  lemma ShortRequest(service: byte, p: byte)
    ensures Readers.F.RequestBytes(service, [p]) == [2, service, p, (2 + service + p) % 256]
  {
    SumOfThree(2, service, p);
    assert [2, service] + [p] == [2, service, p];
    assert Checksum([2, service, p]) == (2 + service + p) % 256;
  }

  lemma FixedFrames(link: P.Link)
    requires !link.addressed
    ensures P.Encoded(link, START_DIAGNOSTIC_SESSION, [TD5_SESSION]) == Ok(SESSION_FRAME)
    ensures P.Encoded(link, SECURITY_ACCESS, [1]) == Ok(SEED_FRAME)
  {
    hide P.Encoded, Readers.F.RequestBytes;
    Readers.FirmwareSendsTheSameFrame(START_DIAGNOSTIC_SESSION, [TD5_SESSION], link);
    Readers.FirmwareSendsTheSameFrame(SECURITY_ACCESS, [1], link);
    ShortRequest(START_DIAGNOSTIC_SESSION, TD5_SESSION);
    ShortRequest(SECURITY_ACCESS, 1);
  }

  /** The burst made of one answer of the bus. */
  function Heard(reply: seq<Rx>): Bytes {
    K.BurstRead(reply, false).bytes
  }

  // ---- a bus that only echoes ------------------------------------------ //

  /** An answer of the bus that is the frame just sent, in one burst, and on a strict line nothing else. */
  predicate EchoOf(reply: seq<Rx>, frame: Bytes, tolerant: bool) {
    Heard(reply) == frame && (!tolerant ==> Flatten(reply) == frame)
  }

  /** Over this trace the bus answers every transmission with its echo only. */
  predicate EchoesOnly(replies: seq<seq<Rx>>, trace: seq<Event>, tolerant: bool) {
    if trace == [] then true
    else if trace[0].Sent? then
      EchoOf(K.ReplyTo(replies, 0), trace[0].frame, tolerant) && EchoesOnly(K.Rest(replies), trace[1..], tolerant)
    else EchoesOnly(replies, trace[1..], tolerant)
  }

  /** The answers that are left after a trace. */
  function Unheard(replies: seq<seq<Rx>>, trace: seq<Event>): seq<seq<Rx>> {
    if trace == [] then replies
    else Unheard(if trace[0].Sent? then K.Rest(replies) else replies, trace[1..])
  }

  lemma {:induction false} EchoesSplit(replies: seq<seq<Rx>>, a: seq<Event>, b: seq<Event>, tolerant: bool)
    requires EchoesOnly(replies, a + b, tolerant)
    ensures EchoesOnly(replies, a, tolerant) && EchoesOnly(Unheard(replies, a), b, tolerant)
  {
    hide EchoOf;
    if a == [] {
      assert a + b == b;
    } else {
      assert (a + b)[1..] == a[1..] + b;
      EchoesSplit(if a[0].Sent? then K.Rest(replies) else replies, a[1..], b, tolerant);
    }
  }

  lemma {:induction false} UnheardSplit(replies: seq<seq<Rx>>, a: seq<Event>, b: seq<Event>)
    ensures Unheard(replies, a + b) == Unheard(Unheard(replies, a), b)
  {
    if a == [] {
      assert a + b == b;
    } else {
      assert (a + b)[1..] == a[1..] + b;
      UnheardSplit(if a[0].Sent? then K.Rest(replies) else replies, a[1..], b);
    }
  }

  lemma {:induction false} EchoesOfRepeated(replies: seq<seq<Rx>>, frame: Bytes, n: nat, tolerant: bool)
    ensures Unheard(replies, K.Repeat(Sent(frame), n)) == K.Later(replies, n)
    ensures EchoesOnly(replies, K.Repeat(Sent(frame), n), tolerant) ==>
              forall i | 0 <= i < n :: EchoOf(K.ReplyTo(replies, i), frame, tolerant)
  {
    hide EchoOf;
    if n > 0 {
      EchoesOfRepeated(K.Rest(replies), frame, n - 1, tolerant);
      assert K.Repeat(Sent(frame), n)[1..] == K.Repeat(Sent(frame), n - 1);
      assert forall i | 0 < i :: K.ReplyTo(replies, i) == K.ReplyTo(K.Rest(replies), i - 1);
    }
  }

  /** Hearing only its own frame, a request whose frame does not hold the positive SID fails, strict or tolerant. */
  lemma EchoDoesNotAnswer(e: Env, link: P.Link, service: byte, payload: Bytes, retries: nat, frame: Bytes)
    returns (t: seq<Event>)
    requires e.arrivals == [] && P.Encoded(link, service, payload) == Ok(frame) && P.Positive(service) !in frame
    ensures 1 <= |t| <= retries + 1 && (link.tolerant ==> |t| == 1) && t == K.Repeat(Sent(frame), |t|)
    ensures var (r, e') := Call(e, link, service, payload, retries);
            && e'.arrivals == [] && e'.queued == e.queued && e'.wire.log == e.wire.log + t
            && e'.wire.replies == Unheard(e.wire.replies, t)
            && (EchoesOnly(e.wire.replies, t, link.tolerant) ==> r.Err?)
  {
    hide P.Encoded, P.Positive, EchoesOnly, Unheard, Readers.Tolerant, P.ResolvePending, P.Interpret, P.ExtractResponse,
         K.Exchange, K.Converse, K.BurstRead;
    var n := 1;
    if link.tolerant {
      Readers.EchoAloneAnswersIff(frame, service, payload);
      TolerantOnce(e, link, service, payload, retries, frame);
    } else {
      n := P.StrictNeedsPositive(e.wire, link, service, payload, retries);
    }
    t := K.Repeat(Sent(frame), n);
    EchoesOfRepeated(e.wire.replies, frame, n, link.tolerant);
    if EchoesOnly(e.wire.replies, t, link.tolerant) {
      assert EchoOf(K.ReplyTo(e.wire.replies, 0), frame, link.tolerant);
    }
  }

  lemma TolerantOnce(e: Env, link: P.Link, service: byte, payload: Bytes, retries: nat, frame: Bytes)
    requires link.tolerant && e.arrivals == [] && P.Encoded(link, service, payload) == Ok(frame)
    ensures var (r, e') := Call(e, link, service, payload, retries);
            && r == Readers.Tolerant(Heard(K.ReplyTo(e.wire.replies, 0)), service, payload)
            && e'.arrivals == [] && e'.queued == e.queued
            && e'.wire.log == e.wire.log + K.Repeat(Sent(frame), 1) && e'.wire.replies == K.Later(e.wire.replies, 1)
  {
    hide P.Encoded, K.BurstRead, P.Interpret, P.ExtractResponse;
    ConverseHears(e.wire, frame);
    assert K.Repeat(Sent(frame), 1) == [Sent(frame)];
    assert K.Later(e.wire.replies, 1) == K.Later(K.Rest(e.wire.replies), 0);
  }

  lemma EchoIsNoInit(e: Env, plan: Plan, i: nat)
    requires plan.variants != [] && e.arrivals == []
    ensures var (init, e') := StartCommunication(e, plan, i);
            && e'.arrivals == [] && e'.queued == e.queued
            && e'.wire.log == e.wire.log + [Sent(plan.InitAt(i))]
            && e'.wire.replies == Unheard(e.wire.replies, [Sent(plan.InitAt(i))])
            && (EchoesOnly(e.wire.replies, [Sent(plan.InitAt(i))], plan.link.tolerant) ==> init.Err?)
  {
    hide K.BurstRead, K.AnswerInBurst, K.InitFrame, K.Converse;
    ConverseHears(e.wire, plan.InitAt(i));
    K.EchoIsNoAnswer(plan.InitAt(i), plan.VariantAt(i).functional);
  }

  /** `10 A0` as this link sends it. */
  function SessionFrame(link: P.Link): Bytes {
    var f := P.Encoded(link, START_DIAGNOSTIC_SESSION, [TD5_SESSION]);
    if f.Ok? then f.value else []
  }

  /** The echo of the session request cannot hold its own answer: never so on a link without addresses. */
  predicate SessionEchoIsSafe(link: P.Link) {
    P.Positive(START_DIAGNOSTIC_SESSION) !in SessionFrame(link)
  }

  lemma UnaddressedSessionEchoIsSafe(link: P.Link)
    requires !link.addressed
    ensures SessionFrame(link) == SESSION_FRAME && SessionEchoIsSafe(link)
  {
    hide P.Encoded;
    FixedFrames(link);
  }

  /** The unlocking step of a bus without modules: the session request, again only on a strict line. */
  predicate OnlySessionRequests(link: P.Link, chat: seq<Event>) {
    chat == K.Repeat(Sent(SessionFrame(link)), |chat|) && 1 <= |chat| <= 3 && (link.tolerant ==> |chat| == 1)
  }

  /** Hearing only itself, the unlocking step fails at the session request. */
  lemma EchoDoesNotUnlock(e: Env, link: P.Link, key: (byte, byte) -> (byte, byte), chat: seq<Event>)
    requires e.arrivals == [] && SessionEchoIsSafe(link)
    requires Connect(e, link, key).1.wire.log == e.wire.log + chat && EchoesOnly(e.wire.replies, chat, link.tolerant)
    ensures var (unlocked, e') := Connect(e, link, key);
            !unlocked && OnlySessionRequests(link, chat) && e'.wire.replies == Unheard(e.wire.replies, chat)
  {
    hide Call, P.Encoded, P.Positive, EchoesOnly, Unheard;
    P.EncodedIsFrame(link, START_DIAGNOSTIC_SESSION, [TD5_SESSION]);
    var t := EchoDoesNotAnswer(e, link, START_DIAGNOSTIC_SESSION, [TD5_SESSION], 2, SessionFrame(link));
    var whole := ConnectTrace(e, link, key);
    assert t <= chat by { PrefixOfSuffix(e.wire.log, t, chat); }
    assert chat == t + chat[|t|..];
    EchoesSplit(e.wire.replies, t, chat[|t|..], link.tolerant);
    assert e.wire.log + chat == e.wire.log + t;
    assert |chat| == |t|;
  }

  lemma PrefixOfSuffix(log: seq<Event>, a: seq<Event>, b: seq<Event>)
    requires log + a <= log + b
    ensures a <= b
  {
    assert (log + b)[|log|..] == b && (log + a)[|log|..] == a;
    assert (log + b)[..|log + a|] == log + a;
    assert b[..|a|] == (log + b)[|log|..|log| + |a|] == a;
  }

  /** One attempt on a bus that only echoes comes to nothing. */
  lemma EchoOnlyAttempt(e: Env, plan: Plan, i: nat, chat: seq<Event>)
    requires plan.variants != [] && e.arrivals == [] && (plan.after.Unlock? ==> SessionEchoIsSafe(plan.link))
    requires TryOnce(e, plan, i).1.wire.log == e.wire.log + ([Sent(plan.InitAt(i))] + chat)
    requires EchoesOnly(e.wire.replies, [Sent(plan.InitAt(i))] + chat, plan.link.tolerant)
    ensures var (c1, tried) := TryOnce(e, plan, i);
            && c1.None? && tried.wire.replies == Unheard(e.wire.replies, [Sent(plan.InitAt(i))] + chat)
            && (if plan.after.Nothing? then chat == [] else OnlySessionRequests(plan.link, chat))
  {
    hide StartCommunication, Connect, EchoesOnly, Unheard, K.InitFrame, SessionEchoIsSafe, OnlySessionRequests;
    var init := [Sent(plan.InitAt(i))];
    EchoesSplit(e.wire.replies, init, chat, plan.link.tolerant);
    UnheardSplit(e.wire.replies, init, chat);
    EchoIsNoInit(e, plan, i);
    var e1 := StartCommunication(e, plan, i).1;
    assert e.wire.log + (init + chat) == e1.wire.log + chat;
    if plan.after.Unlock? {
      EchoDoesNotUnlock(e1, plan.link, plan.after.key, chat);
    } else {
      assert |e1.wire.log| == |e1.wire.log + chat|;
      assert Unheard(e1.wire.replies, []) == e1.wire.replies by { NothingUnheard(e1.wire.replies); }
    }
  }

  lemma NothingUnheard(replies: seq<seq<Rx>>)
    ensures Unheard(replies, []) == replies
  {
  }

  /** A failed attempt, its quiet period, and what the attempts after it add to the log. */
  lemma AfterFailedAttempt(e: Env, plan: Plan, i: nat, t: seq<Event>, chat: seq<Event>) returns (rest: seq<Event>)
    requires plan.variants != [] && i < plan.attempts && e.arrivals == [] && e.queued == 0
    requires TryOnce(e, plan, i).0.None?
    requires TryOnce(e, plan, i).1.wire.log == e.wire.log + ([Sent(plan.InitAt(i))] + chat)
    requires Rounds(e, plan, i).1.wire.log == e.wire.log + t
    ensures Rested(e, plan, i).arrivals == [] && Rested(e, plan, i).queued == 0
    ensures Rested(e, plan, i).wire.replies == TryOnce(e, plan, i).1.wire.replies
    ensures Rounds(e, plan, i) == Rounds(Rested(e, plan, i), plan, i + 1)
    ensures Rounds(e, plan, i).1.wire.log == Rested(e, plan, i).wire.log + rest
    ensures t == [Sent(plan.InitAt(i))] + chat + ([Slept(plan.retrySleep)] + rest)
  {
    hide TryOnce, Sleep, K.InitFrame, Chatter, AllChatter, Outcome, FirstSuccess, RoundsTrace;
    var traced := TryOnceTrace(e, plan, i);
    var tried, rested := TryOnce(e, plan, i).1, Rested(e, plan, i);
    SleepsThrough(tried, plan.retrySleep, plan.hooked);
    var more := AnyRoundsTrace(rested, plan, i + 1);
    rest := RoundsTrace(plan, i + 1, more, FirstSuccess(rested, plan, i + 1) < plan.attempts);
    SuffixAfter(e.wire.log, [Sent(plan.InitAt(i))] + chat, [Slept(plan.retrySleep)], rest, t);
  }

  lemma SuffixAfter(log: seq<Event>, a: seq<Event>, b: seq<Event>, c: seq<Event>, t: seq<Event>)
    requires log + a + b + c == log + t
    ensures t == a + (b + c)
  {
    assert log + a + b + c == log + (a + (b + c));
    SameSuffix(log, t, a + (b + c));
  }

  /** What a bus without modules makes of the attempts from `i` on. */
  predicate AllInVain(plan: Plan, i: nat, t: seq<Event>, chats: seq<seq<Event>>)
    requires plan.variants != []
  {
    && i + |chats| == plan.attempts && t == RoundsTrace(plan, i, chats, false)
    && forall j | 0 <= j < |chats| ::
         if plan.after.Nothing? then chats[j] == [] else OnlySessionRequests(plan.link, chats[j])
  }

  lemma OneMoreInVain(plan: Plan, i: nat, t: seq<Event>, chat: seq<Event>, rest: seq<Event>, chats: seq<seq<Event>>)
    requires plan.variants != [] && AllInVain(plan, i + 1, rest, chats)
    requires if plan.after.Nothing? then chat == [] else OnlySessionRequests(plan.link, chat)
    requires t == [Sent(plan.InitAt(i))] + chat + ([Slept(plan.retrySleep)] + rest)
    ensures AllInVain(plan, i, t, [chat] + chats)
  {
    hide OnlySessionRequests, K.InitFrame;
    assert ([chat] + chats)[1..] == chats;
  }

  lemma {:induction false} EchoOnlyRounds(e: Env, plan: Plan, i: nat, t: seq<Event>) returns (chats: seq<seq<Event>>)
    requires plan.variants != [] && i <= plan.attempts && e.arrivals == [] && e.queued == 0
    requires plan.after.Unlock? ==> SessionEchoIsSafe(plan.link)
    requires Rounds(e, plan, i).1.wire.log == e.wire.log + t && EchoesOnly(e.wire.replies, t, plan.link.tolerant)
    ensures Rounds(e, plan, i).0 == Failed && AllInVain(plan, i, t, chats)
    decreases plan.attempts - i
  {
    hide TryOnce, Sleep, EchoesOnly, Unheard, K.InitFrame, SessionEchoIsSafe, OnlySessionRequests, Chatter, AllChatter,
         Rested, Outcome, FirstSuccess;
    if i == plan.attempts {
      chats := [];
      assert |t| == 0;
    } else {
      hide RoundsTrace, AllInVain;
      var chat := TryOnceTrace(e, plan, i);
      var any := AnyRoundsTrace(e, plan, i);
      var a, quiet := [Sent(plan.InitAt(i))] + chat, [Slept(plan.retrySleep)];
      PrefixOfSuffix(e.wire.log, a, t);
      assert t == a + t[|a|..];
      EchoesSplit(e.wire.replies, a, t[|a|..], plan.link.tolerant);
      EchoOnlyAttempt(e, plan, i, chat);
      var rest := AfterFailedAttempt(e, plan, i, t, chat);
      assert t[|a|..] == quiet + rest;
      EchoesSplit(Rested(e, plan, i).wire.replies, quiet, rest, plan.link.tolerant);
      QuietUnheard(Rested(e, plan, i).wire.replies, plan.retrySleep);
      chats := EchoOnlyRounds(Rested(e, plan, i), plan, i + 1, rest);
      OneMoreInVain(plan, i, t, chat, rest, chats);
      chats := [chat] + chats;
    }
  }

  lemma SameSuffix(log: seq<Event>, a: seq<Event>, b: seq<Event>)
    requires log + a == log + b
    ensures a == b
  {
    assert a == (log + a)[|log|..] == (log + b)[|log|..] == b;
  }

  lemma QuietUnheard(replies: seq<seq<Rx>>, ms: nat)
    ensures Unheard(replies, [Slept(ms)]) == replies
  {
    assert [Slept(ms)][1..] == [];
  }

  /**
   With no module on the bus - whatever is sent is answered by its echo only - establishment fails after
   exactly `attempts` inits, for every target, source and variant list, with or without the unlocking step,
   strict or tolerant; with addresses the session request must not hold its own answer.
   */
  lemma EchoOnlyBusNeverEstablishes(e: Env, plan: Plan, t: seq<Event>) returns (chats: seq<seq<Event>>)
    requires plan.variants != [] && e.arrivals == [] && e.queued == 0
    requires plan.after.Unlock? && plan.link.addressed ==> SessionEchoIsSafe(plan.link)
    requires Establish(e, plan).1.wire.log == e.wire.log + t && EchoesOnly(e.wire.replies, t, plan.link.tolerant)
    ensures Establish(e, plan).0 == Failed
    ensures t == [Sent(StopFrame(plan.link)), Slept(plan.idle)] + RoundsTrace(plan, 0, chats, false)
    ensures AllInVain(plan, 0, RoundsTrace(plan, 0, chats, false), chats)
  {
    hide Rounds, Sleep, StopCommunication, StopFrame, EchoesOnly, SessionEchoIsSafe, Chatter, AllChatter, RoundsTrace,
         Outcome, FirstSuccess, Unheard;
    if !plan.link.addressed {
      UnaddressedSessionEchoIsSafe(plan.link);
    }
    var settled := Settles(e, plan);
    var opening := [Sent(StopFrame(plan.link)), Slept(plan.idle)];
    var any := AnyRoundsTrace(settled, plan, 0);
    var rest := RoundsTrace(plan, 0, any, FirstSuccess(settled, plan, 0) < plan.attempts);
    assert e.wire.log + t == settled.wire.log + rest == e.wire.log + (opening + rest);
    SameSuffix(e.wire.log, t, opening + rest);
    EchoesSplit(e.wire.replies, opening, rest, plan.link.tolerant);
    OpeningUnheard(e.wire.replies, StopFrame(plan.link), plan.idle);
    chats := EchoOnlyRounds(settled, plan, 0, rest);
  }

  lemma OpeningUnheard(replies: seq<seq<Rx>>, frame: Bytes, ms: nat)
    ensures Unheard(replies, [Sent(frame), Slept(ms)]) == K.Rest(replies)
  {
    assert [Sent(frame), Slept(ms)][1..] == [Slept(ms)];
    QuietUnheard(K.Rest(replies), ms);
  }

  // ---- commands arriving during an establishment ----------------------- //

  predicate HasArrival(log: seq<Event>) {
    exists i | 0 <= i < |log| :: log[i].Arrived?
  }

  /** How many init frames were sent after the first command arrived. */
  function InitsAfterArrival(log: seq<Event>): nat {
    if log == [] then 0
    else
      var before := log[..|log| - 1];
      InitsAfterArrival(before) + if IsInit(log[|log| - 1]) && HasArrival(before) then 1 else 0
  }

  /** A command waits exactly if one has arrived, and so far no init followed it. */
  predicate Unharmed(e: Env, inits: nat) {
    (HasArrival(e.wire.log) <==> e.queued > 0) && InitsAfterArrival(e.wire.log) <= inits
  }

  lemma LogOne(e: Env, ev: Event, inits: nat)
    requires Unharmed(e, inits) && !IsInit(ev) && !ev.Arrived?
    ensures Unharmed(e.Logged(ev), inits)
  {
    var log := e.wire.log;
    assert (log + [ev])[..|log|] == log;
    assert forall i | 0 <= i < |log| :: (log + [ev])[i] == log[i];
    if HasArrival(log) {
      var i :| 0 <= i < |log| && log[i].Arrived?;
      assert (log + [ev])[i].Arrived?;
    }
  }

  lemma {:induction false} LogRepeated(e: Env, ev: Event, n: nat, inits: nat)
    requires Unharmed(e, inits) && !IsInit(ev) && !ev.Arrived?
    ensures Unharmed(e.(wire := e.wire.(log := e.wire.log + K.Repeat(ev, n))), inits)
  {
    if n == 0 {
      assert e.wire.log + K.Repeat(ev, 0) == e.wire.log;
    } else {
      LogRepeated(e, ev, n - 1, inits);
      var e' := e.(wire := e.wire.(log := e.wire.log + K.Repeat(ev, n - 1)));
      LogOne(e', ev, inits);
      assert e'.wire.log + [ev] == e.wire.log + K.Repeat(ev, n);
    }
  }

  lemma TickKeeps(e: Env, inits: nat)
    requires Unharmed(e, inits)
    ensures Unharmed(e.Tick(), inits) && e.Tick().queued >= e.queued
  {
    if e.arrivals != [] && e.arrivals[0] > 0 {
      var ev := Arrived(e.arrivals[0]);
      assert (e.wire.log + [ev])[..|e.wire.log|] == e.wire.log;
      assert (e.wire.log + [ev])[|e.wire.log|].Arrived?;
    }
  }

  /** A frame that is not StartCommunication, sent any number of times, is no init. */
  lemma CallKeeps(e: Env, link: P.Link, service: byte, payload: Bytes, retries: nat, inits: nat)
    requires Unharmed(e, inits) && service != 0x81 && |payload| <= 3
    ensures var e' := Call(e, link, service, payload, retries).1;
            Unharmed(e', inits) && e'.queued >= e.queued
  {
    hide P.Interpret, P.ExtractResponse, P.ResolvePending, K.Converse, K.Exchange;
    TickKeeps(e, inits);
    var before := e.Tick();
    P.EncodedIsFrame(link, service, payload);
    var frame := P.Encoded(link, service, payload).value;
    assert !IsInit(Sent(frame));
    var n := 1;
    if !link.tolerant {
      n := K.ExchangeSends(before.wire, frame, link.echo, retries);
    } else {
      assert K.Repeat(Sent(frame), 1) == [Sent(frame)];
    }
    LogRepeated(before, Sent(frame), n, inits);
    var r := P.Request(before.wire, link, service, payload, retries);
    assert r.wire.log == before.wire.log + K.Repeat(Sent(frame), n);
    TickKeeps(before.(wire := r.wire), inits);
  }

  lemma LogInit(e: Env, ev: Event)
    requires Unharmed(e, 0) && IsInit(ev)
    ensures Unharmed(e.Logged(ev), if e.queued > 0 then 1 else 0)
  {
    var log := e.wire.log;
    assert (log + [ev])[..|log|] == log;
    assert forall k | 0 <= k < |log| :: (log + [ev])[k] == log[k];
    if HasArrival(log) {
      var k :| 0 <= k < |log| && log[k].Arrived?;
      assert (log + [ev])[k].Arrived?;
    }
  }

  /** An init counts only if a command is already waiting. */
  lemma InitCounts(e: Env, plan: Plan, i: nat)
    requires plan.variants != [] && Unharmed(e, 0)
    ensures Unharmed(StartCommunication(e, plan, i).1, 1)
  {
    hide K.AnswerInBurst, K.Converse, HasArrival, InitsAfterArrival;
    TickKeeps(e, 0);
    var before := e.Tick();
    LogInit(before, Sent(plan.InitAt(i)));
    var v := plan.VariantAt(i);
    var r := K.FastInitTolerant(
      before.wire, plan.link.target, if v.source.Some? then v.source.value else plan.link.source, v.functional);
    TickKeeps(before.(wire := r.wire), 1);
  }

  lemma {:induction false} SlicesKeep(e: Env, remaining: nat, inits: nat)
    requires Unharmed(e, inits)
    ensures var (whole, e') := Slices(e, remaining);
            Unharmed(e', inits) && (whole <==> e'.queued == 0)
    decreases remaining
  {
    if e.queued > 0 {
      LogOne(e, Interrupted, inits);
    } else if remaining > 0 {
      TickKeeps(e, inits);
      SlicesKeep(e.Tick(), if remaining <= SLICE then 0 else remaining - SLICE, inits);
    }
  }

  /** An interruptible sleep is only slept through while no command waits. */
  lemma SleepKeeps(e: Env, ms: nat, inits: nat)
    requires Unharmed(e, inits)
    ensures var (whole, e') := Sleep(e, ms, true);
            Unharmed(e', inits) && (whole <==> e'.queued == 0)
  {
    SlicesKeep(e, ms, inits);
    var (whole, e') := Slices(e, ms);
    if whole {
      LogOne(e', Slept(ms), inits);
    }
  }

  lemma ConnectKeeps(e: Env, link: P.Link, key: (byte, byte) -> (byte, byte), inits: nat)
    requires Unharmed(e, inits)
    ensures var e' := Connect(e, link, key).1;
            Unharmed(e', inits) && e'.queued >= e.queued
  {
    hide Call;
    CallKeeps(e, link, START_DIAGNOSTIC_SESSION, [TD5_SESSION], 2, inits);
    var (session, e1) := Call(e, link, START_DIAGNOSTIC_SESSION, [TD5_SESSION], 2);
    CallKeeps(e1, link, SECURITY_ACCESS, [1], 2, inits);
    var (seed, e2) := Call(e1, link, SECURITY_ACCESS, [1], 2);
    if seed.Ok? && |seed.value| >= 3 {
      var k := key(seed.value[1], seed.value[2]);
      CallKeeps(e2, link, SECURITY_ACCESS, [2, k.0, k.1], 2, inits);
    }
  }

  lemma QuietSoFar(e: Env, inits: nat)
    requires Unharmed(e, inits) && e.queued == 0
    ensures Unharmed(e, 0)
  {
    NoArrivalNoCount(e.wire.log);
  }

  lemma {:induction false} NoArrivalNoCount(log: seq<Event>)
    requires !HasArrival(log)
    ensures InitsAfterArrival(log) == 0
  {
    if log != [] {
      NoArrivalNoCount(log[..|log| - 1]);
    }
  }

  lemma {:induction false} RoundsUnderCommands(e: Env, plan: Plan, i: nat)
    requires plan.variants != [] && plan.hooked && i <= plan.attempts && Unharmed(e, 0) && e.queued == 0
    ensures var (ending, e') := Rounds(e, plan, i);
            Unharmed(e', 1) && (ending.Aborted? ==> e'.queued > 0) && (ending.Failed? ==> e'.queued == 0)
    decreases plan.attempts - i
  {
    hide StartCommunication, Connect, Sleep, HasArrival, InitsAfterArrival;
    if i < plan.attempts {
      InitCounts(e, plan, i);
      var tried := StartCommunication(e, plan, i).1;
      if plan.after.Unlock? {
        ConnectKeeps(tried, plan.link, plan.after.key, 1);
        tried := Connect(tried, plan.link, plan.after.key).1;
      }
      SleepKeeps(tried, plan.retrySleep, 1);
      var (whole, rested) := Sleep(tried, plan.retrySleep, true);
      if whole {
        QuietSoFar(rested, 1);
        RoundsUnderCommands(rested, plan, i + 1);
      }
    }
  }

  /**
   Commands may arrive at any point of an interruptible establishment: after the first of them at most
   one more init frame is sent before it ends. Unless it succeeds, it ends aborted exactly when a command is
   waiting, and failed exactly when none is.
   */
  lemma AtMostOneInitAfterCommand(e: Env, plan: Plan)
    requires plan.variants != [] && plan.hooked
    requires e.queued == 0 && !HasArrival(e.wire.log)
    ensures var (ending, e') := Establish(e, plan);
            && InitsAfterArrival(e'.wire.log) <= 1
            && (ending.Aborted? ==> e'.queued > 0) && (ending.Failed? ==> e'.queued == 0)
  {
    hide Rounds, Sleep, Call, HasArrival, InitsAfterArrival;
    NoArrivalNoCount(e.wire.log);
    CallKeeps(e, plan.link, P.STOP_COMMUNICATION, [], 0, 0);
    SleepKeeps(StopCommunication(e, plan.link), plan.idle, 0);
    var (whole, settled) := Sleep(StopCommunication(e, plan.link), plan.idle, true);
    if whole {
      RoundsUnderCommands(settled, plan, 0);
    }
  }

  // ---- teardown -------------------------------------------------------- //

  /** Best effort: StopDiagnosticSession for modules that have a session, then StopCommunication. */
  function EndSession(e: Env, link: P.Link, hasSession: bool): Env {
    StopCommunication(if hasSession then Call(e, link, P.STOP_DIAGNOSTIC_SESSION, [], 2).1 else e, link)
  }

  function Release(e: Env, link: P.Link, hasSession: bool): Env {
    EndSession(e, link, hasSession).Logged(Closed)
  }

  /** The log without the arrivals of commands: what this thread did itself. */
  function Own(log: seq<Event>): seq<Event> {
    if log == [] then []
    else Own(log[..|log| - 1]) + if log[|log| - 1].Arrived? then [] else [log[|log| - 1]]
  }

  lemma {:induction false} OwnAppend(log: seq<Event>, t: seq<Event>)
    requires forall i | 0 <= i < |t| :: !t[i].Arrived?
    ensures Own(log + t) == Own(log) + t
  {
    if t == [] {
      assert log + t == log;
    } else {
      var last := |t| - 1;
      OwnAppend(log, t[..last]);
      assert (log + t)[..|log + t| - 1] == log + t[..last];
      assert t == t[..last] + [t[last]];
    }
  }

  lemma TickIsNotOwn(e: Env)
    ensures Own(e.Tick().wire.log) == Own(e.wire.log)
  {
    if e.arrivals != [] && e.arrivals[0] > 0 {
      assert (e.wire.log + [Arrived(e.arrivals[0])])[..|e.wire.log|] == e.wire.log;
    }
  }

  /** A request sends copies of its frame only, whatever arrives meanwhile. */
  lemma CallSends(e: Env, link: P.Link, service: byte, payload: Bytes, retries: nat) returns (n: nat)
    requires |payload| < 0xFF
    ensures 1 <= n <= retries + 1 && (link.tolerant ==> n == 1)
    ensures P.Encoded(link, service, payload).Ok?
    ensures Own(Call(e, link, service, payload, retries).1.wire.log)
         == Own(e.wire.log) + K.Repeat(Sent(P.Encoded(link, service, payload).value), n)
  {
    hide P.Encoded, P.Interpret, P.ExtractResponse, P.ResolvePending, K.Converse, K.Exchange, Own;
    P.EncodedIsFrame(link, service, payload);
    var frame, before := P.Encoded(link, service, payload).value, e.Tick();
    n := 1;
    if link.tolerant {
      assert K.Repeat(Sent(frame), 1) == [Sent(frame)];
    } else {
      n := K.ExchangeSends(before.wire, frame, link.echo, retries);
    }
    var r := P.Request(before.wire, link, service, payload, retries);
    assert r.wire.log == before.wire.log + K.Repeat(Sent(frame), n);
    TickIsNotOwn(e);
    OwnAppend(before.wire.log, K.Repeat(Sent(frame), n));
    TickIsNotOwn(before.(wire := r.wire));
  }

  /**
   A release, whatever the bus does and whatever commands arrive meanwhile: StopDiagnosticSession if there is
   a session, again only on a strict line, one StopCommunication, and last of all the port is closed.
   */
  lemma ReleaseTrace(e: Env, link: P.Link, hasSession: bool) returns (n: nat, stopSession: Bytes)
    ensures if hasSession then 1 <= n <= 3 && (link.tolerant ==> n == 1) else n == 0
    ensures P.Encoded(link, P.STOP_DIAGNOSTIC_SESSION, []) == Ok(stopSession)
    ensures var log := Release(e, link, hasSession).wire.log;
            && Own(log) == Own(e.wire.log) + (K.Repeat(Sent(stopSession), n) + [Sent(StopFrame(link)), Closed])
            && log[|log| - 1] == Closed
  {
    hide Call, P.Encoded, Own;
    P.EncodedIsFrame(link, P.STOP_DIAGNOSTIC_SESSION, []);
    stopSession := P.Encoded(link, P.STOP_DIAGNOSTIC_SESSION, []).value;
    var ended := e;
    if hasSession {
      n := CallSends(e, link, P.STOP_DIAGNOSTIC_SESSION, [], 2);
      ended := Call(e, link, P.STOP_DIAGNOSTIC_SESSION, [], 2).1;
    } else {
      n := 0;
      assert Own(e.wire.log) + K.Repeat(Sent(stopSession), 0) == Own(e.wire.log);
    }
    var stops := CallSends(ended, link, P.STOP_COMMUNICATION, [], 0);
    assert K.Repeat(Sent(StopFrame(link)), 1) == [Sent(StopFrame(link))];
    OwnAppend(StopCommunication(ended, link).wire.log, [Closed]);
  }

  // ---- the object ------------------------------------------------------ //

  /** The rest of the process: commands queued by other threads while this one works. */
  class Host {
    var arrivals: seq<nat>
    var queued: nat
  }

  class EcuSession {
    const kwp: P.Kwp2000
    const host: Host
    const hasSession: bool

    constructor (kwp: P.Kwp2000, host: Host, hasSession: bool)
      ensures this.kwp == kwp && this.host == host && this.hasSession == hasSession
    {
      this.kwp, this.host, this.hasSession := kwp, host, hasSession;
    }

    function Now(): Env
      reads kwp.k, kwp.k.t, host
    {
      Env(kwp.k.State(), host.arrivals, host.queued)
    }

    method Tick()
      modifies host, kwp.k.t`log
      ensures Now() == old(Now()).Tick()
    {
      if host.arrivals != [] {
        if host.arrivals[0] > 0 {
          host.queued := host.queued + host.arrivals[0];
          kwp.k.t.Note(Arrived(host.arrivals[0]));
        }
        host.arrivals := host.arrivals[1..];
      }
    }

    /** The server's sleep: in slices, given up as soon as a command is queued. */
    method ConnectSleep(ms: nat) returns (whole: bool)
      modifies host, kwp.k.t`log
      ensures (whole, Now()) == Slices(old(Now()), ms)
    {
      var remaining: nat := ms;
      while true
        invariant Slices(Now(), remaining) == Slices(old(Now()), ms)
        decreases remaining
      {
        if host.queued > 0 {
          kwp.k.t.Note(Interrupted);
          return false;
        }
        if remaining == 0 {
          return true;
        }
        Tick();
        remaining := if remaining <= SLICE then 0 else remaining - SLICE;
      }
    }

    method SleepFor(ms: nat, hooked: bool) returns (whole: bool)
      modifies host, kwp.k.t`log
      ensures (whole, Now()) == Sleep(old(Now()), ms, hooked)
    {
      whole := true;
      if hooked {
        whole := ConnectSleep(ms);
      }
      if whole {
        kwp.k.t.Note(Slept(ms));
      }
    }

    method Request(service: byte, payload: Bytes, retries: nat) returns (r: Result<Bytes, P.KwpError>)
      modifies host, kwp.k, kwp.k.t
      ensures (r, Now()) == Call(old(Now()), kwp.LinkOf(), service, payload, retries)
    {
      hide P.Request;
      Tick();
      r := kwp.Call(service, payload, retries);
      Tick();
    }

    method StopCommunicating()
      modifies host, kwp.k, kwp.k.t
      ensures Now() == StopCommunication(old(Now()), kwp.LinkOf())
    {
      var ignored := Request(P.STOP_COMMUNICATION, [], 0);
    }

    method ReleasePort()
      modifies host, kwp.k, kwp.k.t
      ensures Now() == Release(old(Now()), kwp.LinkOf(), hasSession)
    {
      hide Call;
      if hasSession {
        var ignored := Request(P.STOP_DIAGNOSTIC_SESSION, [], 2);
      }
      StopCommunicating();
      kwp.k.t.Note(Closed);
    }

    method Init(plan: Plan, i: nat) returns (r: Result<Bytes, K.KLineError>)
      requires plan.variants != [] && plan.link == kwp.LinkOf()
      modifies host, kwp.k, kwp.k.t
      ensures (r, Now()) == StartCommunication(old(Now()), plan, i)
    {
      hide K.FastInitTolerant;
      var v := plan.VariantAt(i);
      Tick();
      r := kwp.k.FastInit(v.functional, v.source);
      Tick();
    }

    method UnlockSession(key: (byte, byte) -> (byte, byte)) returns (unlocked: bool)
      modifies host, kwp.k, kwp.k.t
      ensures (unlocked, Now()) == Connect(old(Now()), kwp.LinkOf(), key)
    {
      hide Call;
      var session := Request(START_DIAGNOSTIC_SESSION, [TD5_SESSION], 2);
      if session.Err? { return false; }
      var seed := Request(SECURITY_ACCESS, [1], 2);
      if seed.Err? || |seed.value| < 3 { return false; }
      var k := key(seed.value[1], seed.value[2]);
      var sent := Request(SECURITY_ACCESS, [2, k.0, k.1], 2);
      return sent.Ok?;
    }

    method EstablishSession(plan: Plan) returns (ending: Ending)
      requires plan.variants != [] && plan.link == kwp.LinkOf()
      modifies host, kwp.k, kwp.k.t
      ensures (ending, Now()) == Establish(old(Now()), plan)
    {
      hide Call, StartCommunication, Connect, Sleep;
      StopCommunicating();
      var whole := SleepFor(plan.idle, plan.hooked);
      if !whole { return Aborted; }
      ghost var settled := Now();
      for i := 0 to plan.attempts
        invariant Rounds(Now(), plan, i) == Rounds(settled, plan, 0)
      {
        var init := Init(plan, i);
        if plan.after.Nothing? {
          if init.Ok? { return Established(init.value); }
        } else {
          var unlocked := UnlockSession(plan.after.key);
          if unlocked { return Established(if init.Ok? then init.value else []); }
        }
        whole := SleepFor(plan.retrySleep, plan.hooked);
        if !whole { return Aborted; }
      }
      return Failed;
    }
  }
}
