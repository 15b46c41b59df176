/** The K-line layer: strict and burst reading, echo handling, retries and the tolerant fast init. */
module KLine {
  import opened Wrappers
  import opened ByteStrings
  import opened Frame
  import opened Scanner
  import opened Bus

  datatype KLineError =
    | Timeout
    | NoAnswerAfterEcho
    | Unencodable(reason: FrameError)

  /** A result and the state of the wire after it. */
  datatype Outcome<T> = Outcome(result: Result<T, KLineError>, wire: Wire)

  // ---- strict reading -------------------------------------------------- //

  /** Scan, and receive until a frame turns up or the deadline passes; later bytes stay buffered. */
  function ReadFrame(w: Wire): (r: Outcome<DecodedFrame>)
    ensures r.result.Ok? ==> r.result.value.data != []
    ensures r.wire.log == w.log && r.wire.replies == w.replies
    decreases |w.line|
  {
    match FirstFrame(w.buf)
    case Some(hit) => Outcome(Ok(hit.frame), w.(buf := w.buf[hit.consumed..]))
    case None =>
      if w.line == [] then Outcome(Err(Timeout), w)
      else if w.line[0].Expired? then Outcome(Err(Timeout), w.(line := w.line[1..]))
      else ReadFrame(w.(buf := w.buf + w.line[0].bytes, line := w.line[1..]))
  }

  /** Send once, swallow the echo, read the reply's data field. */
  function Attempt(w: Wire, frame: Bytes, echo: bool): (r: Outcome<Bytes>)
    ensures r.result.Ok? ==> r.result.value != []
    ensures r.wire.log == w.log + [Sent(frame)]
    ensures r.wire.replies == if w.replies == [] then [] else w.replies[1..]
  {
    var sent := w.Transmitted(frame);
    var own := if echo then ReadFrame(sent) else Outcome(Ok(DecodedFrame([0], None)), sent);
    if own.result.Err? then Outcome(Err(own.result.error), own.wire)
    else
      var reply := ReadFrame(own.wire);
      match reply.result
      case Ok(df) => Outcome(Ok(df.data), reply.wire)
      case Err(e) => Outcome(Err(e), reply.wire)
  }

  function Exchange(w: Wire, frame: Bytes, echo: bool, retries: nat): (r: Outcome<Bytes>)
    ensures r.result.Ok? ==> r.result.value != []
    decreases retries
  {
    var first := Attempt(w, frame, echo);
    if first.result.Ok? || retries == 0 then first else Exchange(first.wire, frame, echo, retries - 1)
  }

  function Repeat(e: Event, n: nat): (s: seq<Event>)
    ensures |s| == n && forall i :: 0 <= i < n ==> s[i] == e
  {
    seq(n, _ => e)
  }

  /** Whatever the bus does, only copies of the one frame are sent: one if it works at once, all if it never does. */
  lemma {:induction false} ExchangeSends(w: Wire, frame: Bytes, echo: bool, retries: nat) returns (n: nat)
    ensures 1 <= n <= retries + 1
    ensures var r := Exchange(w, frame, echo, retries);
            r.wire.log == w.log + Repeat(Sent(frame), n) && (r.result.Err? ==> n == retries + 1)
    decreases retries
  {
    var first := Attempt(w, frame, echo);
    if first.result.Ok? || retries == 0 {
      n := 1;
      assert Repeat(Sent(frame), 1) == [Sent(frame)];
    } else {
      var m := ExchangeSends(first.wire, frame, echo, retries - 1);
      n := m + 1;
      assert [Sent(frame)] + Repeat(Sent(frame), m) == Repeat(Sent(frame), n);
      assert w.log + Repeat(Sent(frame), n) == w.log + [Sent(frame)] + Repeat(Sent(frame), m);
    }
  }

  /** Nothing heard is lost or invented: the bytes received split into skipped noise, the frame, and the buffer. */
  lemma {:induction false} ReadFrameAccounts(w: Wire) returns (heard: Bytes, s: nat, e: nat)
    requires ReadFrame(w).result.Ok?
    ensures var r := ReadFrame(w);
            w.buf + Flatten(w.line) == heard + Flatten(r.wire.line)
            && FrameAt(heard, s, e, r.result.value) && heard[e..] == r.wire.buf && NoFrameBefore(heard, s)
    decreases |w.line|
  {
    hide FirstFrame;
    if FirstFrame(w.buf).Some? {
      var hit := FirstFrame(w.buf).value;
      heard, e := w.buf, hit.consumed;
      s := FirstFrameHasLeastStart(w.buf, hit.frame, hit.consumed);
    } else {
      var next := w.(buf := w.buf + w.line[0].bytes, line := w.line[1..]);
      heard, s, e := ReadFrameAccounts(next);
      assert w.buf + Flatten(w.line) == next.buf + Flatten(next.line);
    }
  }

  /** A read gives up only when the deadline passes, with everything heard so far in the buffer and no frame in it. */
  lemma {:induction false} ReadFrameGivesUp(w: Wire) returns (n: nat)
    requires ReadFrame(w).result.Err?
    ensures n <= |w.line| && forall i | 0 <= i < n :: w.line[i].Chunk?
    ensures var r := ReadFrame(w);
            && r.result == Err(Timeout) && Frameless(r.wire.buf) && r.wire.buf == w.buf + Flatten(w.line[..n])
            && (n < |w.line| ==> w.line[n].Expired? && r.wire.line == w.line[n + 1..])
            && (n == |w.line| ==> r.wire.line == [])
    decreases |w.line|
  {
    hide FirstFrame, Frameless;
    NoneIffFrameless(w.buf);
    if w.line == [] || w.line[0].Expired? {
      n := 0;
      assert w.buf + Flatten(w.line[..0]) == w.buf;
    } else {
      var next := w.(buf := w.buf + w.line[0].bytes, line := w.line[1..]);
      var m := ReadFrameGivesUp(next);
      n := m + 1;
      assert w.line[..n][1..] == w.line[1..][..m];
      assert w.buf + Flatten(w.line[..n]) == next.buf + Flatten(next.line[..m]);
    }
  }

  // ---- what a retry returns -------------------------------------------- //

  lemma {:induction false} ReadFrameIsLocal(w: Wire, v: Wire)
    requires w.buf == v.buf && w.line == v.line
    ensures var r, q := ReadFrame(w), ReadFrame(v);
            r.result == q.result && r.wire.buf == q.wire.buf && r.wire.line == q.wire.line
    decreases |w.line|
  {
    hide FirstFrame;
    if w.line != [] && w.line[0].Chunk? {
      ReadFrameIsLocal(w.(buf := w.buf + w.line[0].bytes, line := w.line[1..]),
                       v.(buf := v.buf + v.line[0].bytes, line := v.line[1..]));
    }
  }

  /** What one transmission comes to, from the bus's answer to it alone: echo, if there is one, and reply. */
  function Verdict(answer: seq<Rx>, echo: bool): Result<Bytes, KLineError> {
    Attempt(Wire([], [], [answer], []), [], echo).result
  }

  lemma AttemptVerdict(w: Wire, frame: Bytes, echo: bool)
    ensures Attempt(w, frame, echo).result == Verdict(ReplyTo(w.replies, 0), echo)
  {
    hide ReadFrame;
    var answer := ReplyTo(w.replies, 0);
    var sent, alone := w.Transmitted(frame), Wire([], [], [answer], []).Transmitted([]);
    assert sent.line == answer == alone.line;
    ReadFrameIsLocal(sent, alone);
    if echo {
      ReadFrameIsLocal(ReadFrame(sent).wire, ReadFrame(alone).wire);
    }
  }

  /**
   An exchange returns what the first transmission that works brings, and its last error exactly if none
   of them does. Answers to earlier transmissions play no part.
   */
  lemma {:induction false} ExchangeReturnsFirstSuccess(w: Wire, frame: Bytes, echo: bool, retries: nat) returns (k: nat)
    ensures k <= retries + 1 && forall j | 0 <= j < k :: Verdict(ReplyTo(w.replies, j), echo).Err?
    ensures var r := Exchange(w, frame, echo, retries);
            if k <= retries then
              && Verdict(ReplyTo(w.replies, k), echo).Ok? && r.result == Verdict(ReplyTo(w.replies, k), echo)
              && r.wire.log == w.log + Repeat(Sent(frame), k + 1)
            else
              r.result.Err? && r.result == Verdict(ReplyTo(w.replies, retries), echo)
    decreases retries
  {
    hide Attempt, Verdict, ReplyTo, Repeat;
    AttemptVerdict(w, frame, echo);
    var first := Attempt(w, frame, echo);
    if first.result.Ok? {
      k := 0;
      RepeatFront(w.log, Sent(frame), 0);
    } else if retries == 0 {
      k := 1;
    } else {
      var m := ExchangeReturnsFirstSuccess(first.wire, frame, echo, retries - 1);
      k := m + 1;
      NextReply(w.replies, m);
      NextReply(w.replies, retries - 1);
      RepeatFront(w.log, Sent(frame), k);
      forall j | 1 <= j < k ensures Verdict(ReplyTo(w.replies, j), echo).Err? {
        NextReply(w.replies, j - 1);
      }
    }
  }

  lemma NextReply(replies: seq<seq<Rx>>, j: nat)
    ensures ReplyTo(replies, j + 1) == ReplyTo(Rest(replies), j)
  {
  }

  lemma RepeatFront(log: seq<Event>, e: Event, n: nat)
    ensures log + [e] + Repeat(e, n) == log + Repeat(e, n + 1)
  {
    assert [e] + Repeat(e, n) == Repeat(e, n + 1);
  }

  // ---- bytes that are never heard -------------------------------------- //

  /** A byte that is neither buffered nor still to come. */
  predicate Absent(w: Wire, b: byte) {
    b !in w.buf && b !in Flatten(w.line)
  }

  lemma HitIsInBuffer(buf: Bytes)
    requires FirstFrame(buf).Some?
    ensures forall b | b in FirstFrame(buf).value.frame.data :: b in buf
  {
    hide FirstFrame, FrameAt;
    var hit := FirstFrame(buf).value;
    var s := FirstFrameHasLeastStart(buf, hit.frame, hit.consumed);
    FrameDataIsInBuffer(buf, s, hit.consumed, hit.frame);
  }

  /** What is not on the line is not read, and does not appear on it by reading. */
  lemma {:induction false} ReadFrameAbsent(w: Wire, b: byte)
    requires Absent(w, b)
    ensures Absent(ReadFrame(w).wire, b)
    ensures ReadFrame(w).result.Ok? ==> b !in ReadFrame(w).result.value.data
    decreases |w.line|
  {
    hide FirstFrame;
    if FirstFrame(w.buf).Some? {
      HitIsInBuffer(w.buf);
    } else if w.line != [] && w.line[0].Chunk? {
      ReadFrameAbsent(w.(buf := w.buf + w.line[0].bytes, line := w.line[1..]), b);
    }
  }

  /** The receive results that follow the `i`-th transmission from now on. */
  function ReplyTo(replies: seq<seq<Rx>>, i: nat): seq<Rx> {
    if i < |replies| then replies[i] else []
  }

  function Rest(replies: seq<seq<Rx>>): seq<seq<Rx>> {
    if replies == [] then [] else replies[1..]
  }

  function Later(replies: seq<seq<Rx>>, n: nat): seq<seq<Rx>> {
    if n == 0 then replies else Later(Rest(replies), n - 1)
  }

  lemma AttemptAbsent(w: Wire, frame: Bytes, echo: bool, b: byte)
    requires b !in Flatten(ReplyTo(w.replies, 0))
    ensures var r := Attempt(w, frame, echo);
            Absent(r.wire, b) && (r.result.Ok? ==> b !in r.result.value)
  {
    hide ReadFrame;
    var sent := w.Transmitted(frame);
    assert sent.line == ReplyTo(w.replies, 0);
    ReadFrameAbsent(sent, b);
    if echo {
      ReadFrameAbsent(ReadFrame(sent).wire, b);
    }
  }

  /** An exchange uses one answer of the bus per transmission, and returns nothing those did not hold. */
  lemma {:induction false} ExchangeHears(w: Wire, frame: Bytes, echo: bool, retries: nat, b: byte) returns (n: nat)
    ensures 1 <= n <= retries + 1
    ensures var r := Exchange(w, frame, echo, retries);
            && r.wire.log == w.log + Repeat(Sent(frame), n) && r.wire.replies == Later(w.replies, n)
            && ((forall i | 0 <= i < n :: b !in Flatten(ReplyTo(w.replies, i))) ==>
                  Absent(r.wire, b) && (r.result.Ok? ==> b !in r.result.value))
    decreases retries
  {
    hide Attempt, Absent;
    var first := Attempt(w, frame, echo);
    if b !in Flatten(ReplyTo(w.replies, 0)) {
      AttemptAbsent(w, frame, echo, b);
    }
    if first.result.Ok? || retries == 0 {
      n := 1;
      assert Repeat(Sent(frame), 1) == [Sent(frame)];
      assert Later(w.replies, 1) == Later(Rest(w.replies), 0);
    } else {
      var m := ExchangeHears(first.wire, frame, echo, retries - 1, b);
      n := m + 1;
      assert [Sent(frame)] + Repeat(Sent(frame), m) == Repeat(Sent(frame), n);
      assert w.log + Repeat(Sent(frame), n) == w.log + [Sent(frame)] + Repeat(Sent(frame), m);
      assert forall i | 0 <= i < m :: ReplyTo(first.wire.replies, i) == ReplyTo(w.replies, i + 1);
    }
  }

  // ---- delivery -------------------------------------------------------- //

  /** `f` is exactly one frame, decoding to `df`. */
  ghost predicate IsFrame(f: Bytes, df: DecodedFrame) {
    FrameAt(f, 0, |f|, df)
  }

  ghost predicate AllFrames(fs: seq<Bytes>, dfs: seq<DecodedFrame>) {
    |fs| == |dfs| && forall i | 0 <= i < |fs| :: IsFrame(fs[i], dfs[i])
  }

  /**
   The frames `fs` arrive in this order, and whenever the line pauses inside one of them, the part
   already received holds no frame of its own.
   */
  ghost predicate Delivers(buf: Bytes, line: seq<Rx>, fs: seq<Bytes>)
    decreases |line| + |fs|
  {
    if fs == [] then true
    else if |fs[0]| <= |buf| then fs[0] <= buf && Delivers(buf[|fs[0]|..], line, fs[1..])
    else Frameless(buf) && line != [] && line[0].Chunk? && Delivers(buf + line[0].bytes, line[1..], fs)
  }

  lemma IsFrameAtFront(f: Bytes, df: DecodedFrame, tail: Bytes)
    requires IsFrame(f, df)
    ensures f != [] && FirstFrame(f + tail) == Some(Hit(df, |f|))
  {
    var a: Addressing, long: bool :|
      Carriable(df.data, long) && df.route == a.ToRoute() && f[0..|f|] == Framed(a, df.data, long);
    assert f == Framed(a, df.data, long);
    FrontFrameWins(a, df.data, long, tail);
  }

  /** Reading takes exactly the next delivered frame off the wire. */
  lemma {:induction false} ReadsDelivered(w: Wire, f: Bytes, df: DecodedFrame, rest: seq<Bytes>)
    requires IsFrame(f, df) && Delivers(w.buf, w.line, [f] + rest)
    ensures var r := ReadFrame(w);
            r.result == Ok(df) && Delivers(r.wire.buf, r.wire.line, rest)
    decreases |w.line|
  {
    hide FirstFrame, FrameAt;
    assert ([f] + rest)[1..] == rest;
    if |f| <= |w.buf| {
      IsFrameAtFront(f, df, w.buf[|f|..]);
      assert f + w.buf[|f|..] == w.buf;
    } else {
      NoneIffFrameless(w.buf);
      ReadsDelivered(w.(buf := w.buf + w.line[0].bytes, line := w.line[1..]), f, df, rest);
    }
  }

  lemma EmptyIsFrameless()
    ensures Frameless([])
  {
    assert FirstFrame([]).None?;
    NoneIffFrameless([]);
  }

  /** Frames that each arrive in one piece are delivered. */
  lemma {:induction false} WholeChunksDeliver(fs: seq<Bytes>, dfs: seq<DecodedFrame>, more: seq<Rx>)
    requires AllFrames(fs, dfs)
    ensures Delivers([], Chunks(fs) + more, fs)
  {
    if fs != [] {
      EmptyIsFrameless();
      IsFrameAtFront(fs[0], dfs[0], []);
      var line := Chunks(fs) + more;
      assert line[0] == Chunk(fs[0]);
      assert line[1..] == Chunks(fs[1..]) + more;
      assert [] + fs[0] == fs[0] && fs[0][|fs[0]|..] == [];
      WholeChunksDeliver(fs[1..], dfs[1..], more);
    }
  }

  /** `f` can be cut anywhere: none of its proper prefixes holds a frame. */
  ghost predicate CutSafe(f: Bytes) {
    forall k: nat | k < |f| :: Frameless(f[..k])
  }

  lemma CutIsFrameless(f: Bytes, k: nat)
    requires CutSafe(f) && k < |f|
    ensures Frameless(f[..k])
  {
  }

  /** Cut-safe frames are delivered however their bytes are split and merged into chunks. */
  lemma {:induction false} AnyChunkingDelivers(buf: Bytes, line: seq<Rx>, fs: seq<Bytes>, tail: Bytes)
    requires forall i | 0 <= i < |line| :: line[i].Chunk?
    requires forall i | 0 <= i < |fs| :: CutSafe(fs[i])
    requires buf + Flatten(line) == Concat(fs) + tail
    ensures Delivers(buf, line, fs)
    decreases |line| + |fs|
  {
    hide CutSafe, Frameless;
    if fs != [] {
      var f, more := fs[0], Concat(fs[1..]) + tail;
      assert Concat(fs) + tail == f + more;
      if |f| <= |buf| {
        CutBehind(buf, Flatten(line), f, more);
        AnyChunkingDelivers(buf[|f|..], line, fs[1..], tail);
      } else {
        CutInside(buf, Flatten(line), f, more);
        CutIsFrameless(f, |buf|);
        assert (buf + line[0].bytes) + Flatten(line[1..]) == buf + Flatten(line);
        AnyChunkingDelivers(buf + line[0].bytes, line[1..], fs, tail);
      }
    }
  }

  lemma CutBehind(a: Bytes, b: Bytes, f: Bytes, more: Bytes)
    requires a + b == f + more && |f| <= |a|
    ensures f <= a && a[|f|..] + b == more
  {
    assert a[..|f|] == (a + b)[..|f|] == (f + more)[..|f|] == f;
    assert a[|f|..] + b == (a + b)[|f|..] == (f + more)[|f|..] == more;
  }

  lemma CutInside(a: Bytes, b: Bytes, f: Bytes, more: Bytes)
    requires a + b == f + more && |a| < |f|
    ensures a == f[..|a|] && b != []
  {
    assert a == (a + b)[..|a|] == (f + more)[..|a|] == f[..|a|];
    assert |a + b| == |f + more|;
  }

  /**
   Reading one frame that comes in pieces returns it, with nothing left over, exactly when no pause
   leaves a part of it that holds a frame itself.
   */
  lemma {:induction false} ReadsWholeFrameIffDelivered(w: Wire, f: Bytes, df: DecodedFrame)
    requires IsFrame(f, df)
    requires forall i | 0 <= i < |w.line| :: w.line[i].Chunk?
    requires w.buf + Flatten(w.line) == f
    ensures var r := ReadFrame(w);
            (r.result == Ok(df) && r.wire.buf + Flatten(r.wire.line) == []) <==> Delivers(w.buf, w.line, [f])
    decreases |w.line|
  {
    hide FirstFrame, FrameAt;
    NoneIffFrameless(w.buf);
    assert [f][1..] == [];
    if |f| <= |w.buf| {
      assert w.buf == f;
      IsFrameAtFront(f, df, []);
      assert f + [] == f && f[|f|..] == [];
    } else if Frameless(w.buf) {
      assert w.line == [] ==> w.buf + Flatten(w.line) == w.buf;
      var next := w.(buf := w.buf + w.line[0].bytes, line := w.line[1..]);
      assert next.buf + Flatten(next.line) == w.buf + Flatten(w.line);
      ReadsWholeFrameIffDelivered(next, f, df);
    } else {
      assert |ReadFrame(w).wire.buf + Flatten(w.line)| == |f| - FirstFrame(w.buf).value.consumed;
    }
  }

  lemma OuterFrame()
    ensures IsFrame([0x04, 0x01, 0x82, 0x83, 0x00, 0x0A], DecodedFrame([0x01, 0x82, 0x83, 0x00], None))
  {
    var outer: Bytes := [0x04, 0x01, 0x82, 0x83, 0x00, 0x0A];
    var data: Bytes := [0x01, 0x82, 0x83, 0x00];
    assert [0x04] + data == [0x04, 0x01] + [0x82, 0x83, 0x00];
    SumConcat([0x04, 0x01], [0x82, 0x83, 0x00]);
    SumConcat([0x82], [0x83, 0x00]);
    assert [0x82] + [0x83, 0x00] == [0x82, 0x83, 0x00];
    assert Framed(Unaddressed, data, false) == outer == outer[0..|outer|];
    assert Unaddressed.ToRoute() == None;
  }

  lemma InnerFrame(part: Bytes)
    requires part == [0x04, 0x01, 0x82, 0x83]
    ensures FirstFrame(part) == Some(Hit(DecodedFrame([0x82], None), 4))
  {
    assert [0x01] + [0x82] == [0x01, 0x82] && Sum([0x82]) == 0x82;
    assert part[1..4] == [0x01, 0x82, 0x83] == Framed(Unaddressed, [0x82], false);
    assert Unaddressed.ToRoute() == None;
    assert FrameAt(part, 1, 4, DecodedFrame([0x82], None));
    TryAtMissesNoFrame(part, 1, 4, DecodedFrame([0x82], None));
    assert TryAt(part, 0).None?;
    assert FirstFrame(part) == FirstFrameFrom(part, 1);
  }

  /** A pause inside a frame whose data looks like a frame makes the reader return the inner one. */
  lemma EmbeddedFrameIsReadInstead(outer: Bytes)
    requires outer == [0x04, 0x01, 0x82, 0x83, 0x00, 0x0A]
    ensures IsFrame(outer, DecodedFrame([0x01, 0x82, 0x83, 0x00], None))
    ensures ReadFrame(Wire([], Chunks([outer[..4], outer[4..]]), [], [])).result == Ok(DecodedFrame([0x82], None))
  {
    OuterFrame();
    InnerFrame(outer[..4]);
    EmptyIsFrameless();
    NoneIffFrameless([]);
    var w := Wire([], Chunks([outer[..4], outer[4..]]), [], []);
    assert w.buf + w.line[0].bytes == outer[..4];
  }

  // ---- burst reading --------------------------------------------------- //

  datatype Burst = Burst(bytes: Bytes, rest: seq<Rx>)

  /** Everything up to the first silence after data, or to the overall deadline. */
  function BurstRead(line: seq<Rx>, got: bool): Burst
  {
    if line == [] then Burst([], [])
    else match line[0]
      case Expired => Burst([], line[1..])
      case Chunk(bytes) =>
        if bytes == [] then
          if got then Burst([], line[1..]) else BurstRead(line[1..], false)
        else
          var more := BurstRead(line[1..], true);
          Burst(bytes + more.bytes, more.rest)
  }

  /** Chunks that come without a pause make one burst. */
  lemma {:induction false} BurstOfChunks(parts: seq<Bytes>, got: bool)
    requires forall i | 0 <= i < |parts| :: parts[i] != []
    ensures BurstRead(Chunks(parts), got).bytes == Concat(parts)
    decreases |parts|
  {
    if parts != [] {
      BurstOfChunks(parts[1..], true);
      assert Chunks(parts)[1..] == Chunks(parts[1..]);
    }
  }

  /** The `i`-th receive ends a burst: the deadline, or silence once something was heard. */
  predicate EndsBurst(line: seq<Rx>, got: bool, i: nat)
    requires i < |line|
  {
    line[i].Expired? || (line[i].bytes == [] && (got || Flatten(line[..i]) != []))
  }

  /** A burst is everything up to the first receive that ends it; what comes after that stays on the line. */
  lemma {:induction false} BurstIsUpToItsEnd(line: seq<Rx>, got: bool) returns (n: nat)
    ensures n <= |line| && forall i | 0 <= i < n :: !EndsBurst(line, got, i)
    ensures n < |line| ==> EndsBurst(line, got, n)
    ensures BurstRead(line, got) == Burst(Flatten(line[..n]), if n < |line| then line[n + 1..] else [])
    decreases |line|
  {
    if line == [] || EndsBurst(line, got, 0) {
      n := 0;
    } else {
      var heard := got || line[0].bytes != [];
      var m := BurstIsUpToItsEnd(line[1..], heard);
      n := m + 1;
      assert line[..n][1..] == line[1..][..m];
      forall i | 1 <= i < |line| ensures EndsBurst(line, got, i) <==> EndsBurst(line[1..], heard, i - 1) {
        assert line[..i][1..] == line[1..][..i - 1];
      }
    }
  }

  function Converse(w: Wire, frame: Bytes): (r: (Bytes, Wire))
    ensures r.1.log == w.log + [Sent(frame)]
    ensures r.1.replies == if w.replies == [] then [] else w.replies[1..]
  {
    var sent := w.Transmitted(frame);
    var burst := BurstRead(sent.line, false);
    (burst.bytes, sent.(line := burst.rest))
  }

  // ---- fast init ------------------------------------------------------- //

  const START_COMMUNICATION: Bytes := [0x81]

  /** The addressed StartCommunication frame. */
  function InitFrame(target: byte, source: byte, functional: bool): (f: Bytes)
    ensures |f| == 5 && f[0] == (if functional then 0xC1 else 0x81) && f[3] == 0x81
  {
    Encode(START_COMMUNICATION, target, source, true, functional).value
  }

  /** Where the search for 0xC1 begins: past the echo, or past its length if a functional echo is damaged. */
  function SearchStart(raw: Bytes, frame: Bytes, functional: bool): (i: nat)
    ensures i <= |raw|
  {
    var i := Find(raw, frame);
    if i >= 0 then i + |frame|
    else if functional then if |frame| <= |raw| then |frame| else |raw|
    else 0
  }

  function AnswerInBurst(raw: Bytes, frame: Bytes, functional: bool): Result<Bytes, KLineError> {
    var offset := SearchStart(raw, frame, functional);
    var j := Find(raw[offset..], [0xC1]);
    if j < 0 then Err(NoAnswerAfterEcho) else Ok(raw[offset + j..])
  }

  function FastInitTolerant(w: Wire, target: byte, source: byte, functional: bool): (r: Outcome<Bytes>)
    ensures r.wire.log == w.log + [Sent(InitFrame(target, source, functional))]
  {
    var frame := InitFrame(target, source, functional);
    var (raw, wire) := Converse(w, frame);
    Outcome(AnswerInBurst(raw, frame, functional), wire)
  }

  /**
   What a tolerant init returns is the burst from the first 0xC1 that is not part of the echo, and it
   fails exactly when there is none. A damaged functional echo is stepped over by its length.
   */
  lemma AnswerIsPastTheEcho(raw: Bytes, frame: Bytes, functional: bool)
    ensures var i := Find(raw, frame);
            var start := SearchStart(raw, frame, functional);
            && (i >= 0 ==> start == i + |frame|)
            && (i < 0 && functional ==> start == |frame| || start == |raw| < |frame|)
            && (i < 0 && !functional ==> start == 0)
            && (AnswerInBurst(raw, frame, functional).Err? <==> forall k | start <= k < |raw| :: raw[k] != 0xC1)
            && (AnswerInBurst(raw, frame, functional).Ok? ==>
                  exists k :: start <= k < |raw| && raw[k] == 0xC1
                              && AnswerInBurst(raw, frame, functional) == Ok(raw[k..])
                              && forall m | start <= m < k :: raw[m] != 0xC1)
  {
    hide Find, FindFrom, OccursAt;
    var start := SearchStart(raw, frame, functional);
    FirstByte(raw[start..], 0xC1);
    var j := Find(raw[start..], [0xC1]);
    forall k | start <= k < |raw| ensures raw[k] == 0xC1 ==> 0 <= j <= k - start {
      assert raw[start..][k - start] == raw[k];
      assert j < 0 || k - start >= j || raw[start..][..j][k - start] == raw[k];
    }
    if j >= 0 {
      var at := start + j;
      assert raw[at] == 0xC1 && AnswerInBurst(raw, frame, functional) == Ok(raw[at..]);
    }
  }

  lemma FirstByte(s: Bytes, b: byte)
    ensures var j := Find(s, [b]);
            && (j < 0 ==> b !in s)
            && (j >= 0 ==> j < |s| && s[j] == b && b !in s[..j])
  {
    forall k | 0 <= k < |s| ensures OccursAt(s, [b], k) <==> s[k] == b {
      assert s[k..k + 1] == [s[k]];
    }
  }

  /** Hearing nothing but oneself is not an answer, whatever the addresses: the echo may hold 0xC1 anywhere. */
  lemma EchoIsNoAnswer(frame: Bytes, functional: bool)
    ensures AnswerInBurst(frame, frame, functional) == Err(NoAnswerAfterEcho)
  {
    assert OccursAt(frame, frame, 0);
    AnswerIsPastTheEcho(frame, frame, functional);
  }

  /** A physical init whose echo is damaged is searched from the start: any 0xC1 in the burst is an answer. */
  lemma LostPhysicalEcho(raw: Bytes, frame: Bytes)
    requires Find(raw, frame) < 0
    ensures AnswerInBurst(raw, frame, false).Ok? <==> 0xC1 in raw
  {
    hide Find, FindFrom, AnswerInBurst;
    AnswerIsPastTheEcho(raw, frame, false);
  }

  lemma PhysicalInitFrame(target: byte, source: byte)
    ensures InitFrame(target, source, false) == [0x81, target, source, 0x81, (target + source + 2) % 256]
  {
    var head: Bytes := [0x81, target, source];
    assert head + START_COMMUNICATION == [0x81, target, source, 0x81];
    hide Sum;
    SumOfFour(0x81, target, source, 0x81);
  }

  /** A piece of a physical echo, heard alone, passes for an answer exactly if it holds 0xC1. */
  lemma EchoPieceAnswersIff(frame: Bytes, piece: Bytes)
    requires |piece| < |frame|
    ensures AnswerInBurst(piece, frame, false).Ok? <==> 0xC1 in piece
  {
    hide FindFrom, AnswerInBurst;
    LostPhysicalEcho(piece, frame);
  }

  /** No piece of its echo can do so exactly if neither address nor the checksum of the init frame is 0xC1. */
  lemma PhysicalEchoSafeIff(target: byte, source: byte)
    ensures var frame := InitFrame(target, source, false);
            (forall a, b | 0 <= a <= b <= |frame| && b - a < |frame| :: AnswerInBurst(frame[a..b], frame, false).Err?)
            <==> target != 0xC1 && source != 0xC1 && (target + source) % 256 != 0xBF
  {
    hide AnswerInBurst;
    var frame := InitFrame(target, source, false);
    PhysicalInitFrame(target, source);
    forall a, b | 0 <= a <= b <= 5 && b - a < 5
      ensures AnswerInBurst(frame[a..b], frame, false).Ok? <==> 0xC1 in frame[a..b]
    {
      EchoPieceAnswersIff(frame, frame[a..b]);
    }
    forall i | 1 <= i < 5 && frame[i] == 0xC1 ensures AnswerInBurst(frame[i..i + 1], frame, false).Ok? {
      assert frame[i..i + 1][0] == 0xC1;
    }
    assert frame[1] == target && frame[2] == source && frame[4] == (target + source + 2) % 256;
  }

  /** Such a frame, its checksum 0xC1: with its first byte lost, the echo passes for an answer. */
  lemma PhysicalEchoMistaken(frame: Bytes)
    requires frame == InitFrame(0xCE, 0xF1, false)
    ensures frame == [0x81, 0xCE, 0xF1, 0x81, 0xC1]
    ensures AnswerInBurst(frame[1..], frame, false) == Ok([0xC1])
  {
    hide FindFrom, AnswerInBurst;
    PhysicalInitFrame(0xCE, 0xF1);
    var raw := frame[1..];
    EchoPieceAnswersIff(frame, raw);
    AnswerIsPastTheEcho(raw, frame, false);
    assert raw[3] == 0xC1;
    var k :| SearchStart(raw, frame, false) <= k < |raw| && raw[k] == 0xC1
             && AnswerInBurst(raw, frame, false) == Ok(raw[k..]);
    assert k == 3 && raw[3..] == [0xC1];
  }

  // ---- the object ------------------------------------------------------ //

  class KLine {
    const t: Transport
    const target: byte
    const source: byte
    const echo: bool
    var rxbuf: Bytes

    constructor (t: Transport, target: byte, source: byte, echo: bool)
      ensures this.t == t && this.target == target && this.source == source && this.echo == echo
      ensures rxbuf == []
    {
      this.t, this.target, this.source, this.echo := t, target, source, echo;
      rxbuf := [];
    }

    function State(): Wire
      reads this, t
    {
      Wire(rxbuf, t.line, t.replies, t.log)
    }

    method FlushInput()
      modifies this, t
      ensures State() == old(State()).Flushed()
    {
      rxbuf := [];
      t.ResetInputBuffer();
    }

    method Send(frame: Bytes)
      modifies t
      ensures State() == old(State()).AfterSend(frame)
    {
      t.Send(frame);
    }

    method ReadNextFrame() returns (r: Result<DecodedFrame, KLineError>)
      modifies this, t
      ensures Outcome(r, State()) == ReadFrame(old(State()))
    {
      while true
        invariant ReadFrame(State()) == ReadFrame(old(State()))
        decreases |t.line|
      {
        var hit := ScanForFrame(rxbuf);
        if hit.Some? {
          rxbuf := rxbuf[hit.value.consumed..];
          return Ok(hit.value.frame);
        }
        var rx := t.Receive();
        if rx.Expired? {
          return Err(Timeout);
        }
        rxbuf := rxbuf + rx.bytes;
      }
    }

    method Request(data: Bytes, retries: nat, addressed: bool) returns (r: Result<Bytes, KLineError>)
      modifies this, t
      ensures match Encode(data, target, source, addressed, false)
              case Err(e) => r == Err(Unencodable(e)) && State() == old(State())
              case Ok(frame) => Outcome(r, State()) == Exchange(old(State()), frame, echo, retries)
    {
      var encoded := Encode(data, target, source, addressed, false);
      if encoded.Err? {
        return Err(Unencodable(encoded.error));
      }
      var frame := encoded.value;
      r := Err(Timeout);
      for i := 0 to retries + 1
        invariant i <= retries ==>
                    (Exchange(State(), frame, echo, retries - i) == Exchange(old(State()), frame, echo, retries))
        invariant i == retries + 1 ==> Outcome(r, State()) == Exchange(old(State()), frame, echo, retries)
      {
        FlushInput();
        Send(frame);
        if echo {
          var own := ReadNextFrame();
          if own.Err? {
            r := Err(own.error);
            continue;
          }
        }
        var reply := ReadNextFrame();
        match reply {
          case Ok(df) => return Ok(df.data);
          case Err(e) => r := Err(e);
        }
      }
    }

    method ReadBurst() returns (raw: Bytes)
      modifies t`line
      ensures Burst(raw, t.line) == BurstRead(old(t.line), false)
    {
      raw := [];
      var got := false;
      while true
        invariant BurstRead(t.line, got).rest == BurstRead(old(t.line), false).rest
        invariant raw + BurstRead(t.line, got).bytes == BurstRead(old(t.line), false).bytes
        decreases |t.line|
      {
        assert raw + [] == raw;
        var rx := t.Receive();
        if rx.Expired? || (rx.bytes == [] && got) {
          return;
        }
        if rx.bytes != [] {
          assert raw + (rx.bytes + BurstRead(t.line, true).bytes)
              == raw + rx.bytes + BurstRead(t.line, true).bytes;
          raw := raw + rx.bytes;
          got := true;
        }
      }
    }

    method ConverseFrame(frame: Bytes) returns (raw: Bytes)
      modifies this, t
      ensures (raw, State()) == Converse(old(State()), frame)
    {
      FlushInput();
      Send(frame);
      raw := ReadBurst();
    }

    method FastInit(functional: bool, source: Option<byte>) returns (r: Result<Bytes, KLineError>)
      modifies this, t
      ensures var from := if source.Some? then source.value else this.source;
              Outcome(r, State()) == FastInitTolerant(old(State()), target, from, functional)
    {
      hide InitFrame, Converse;
      var from := if source.Some? then source.value else this.source;
      var frame := InitFrame(target, from, functional);
      var raw := ConverseFrame(frame);
      var i := Find(raw, frame);
      var offset := if i >= 0 then i + |frame|
                    else if functional then if |frame| <= |raw| then |frame| else |raw|
                    else 0;
      assert offset == SearchStart(raw, frame, functional);
      var search := raw[offset..];
      var j := Find(search, [0xC1]);
      if j < 0 {
        return Err(NoAnswerAfterEcho);
      }
      return Ok(raw[offset + j..]);
    }
  }
}
