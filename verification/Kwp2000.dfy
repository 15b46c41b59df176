/** The KWP2000 service layer (ISO 14230-3): positive and negative responses, responsePending, burst search. */
module Kwp2000 {
  import opened Wrappers
  import opened ByteStrings
  import opened Frame
  import opened Scanner
  import opened Bus
  import K = KLine

  const NEGATIVE_RESPONSE: byte := 0x7F
  const RESPONSE_PENDING: byte := 0x78
  const STOP_COMMUNICATION: byte := 0x82
  const STOP_DIAGNOSTIC_SESSION: byte := 0x20

  datatype KwpError =
    | Line(reason: K.KLineError)
    | TooManyPending
    | EmptyResponse
    | NegativeResponse(service: byte, nrc: byte)
    | UnexpectedSid(sid: byte)

  /** The settings a service layer and its K-line are built with. */
  datatype Link = Link(target: byte, source: byte, echo: bool, maxPending: nat, tolerant: bool, addressed: bool)

  datatype Answer = Answer(result: Result<Bytes, KwpError>, wire: Wire)

  /** `service | 0x40` */
  function Positive(service: byte): byte {
    if service / 64 % 2 == 1 then service else service + 64
  }

  function Encoded(link: Link, service: byte, payload: Bytes): Result<Bytes, FrameError> {
    Encode([service] + payload, link.target, link.source, link.addressed, false)
  }

  predicate IsPending(resp: Bytes) {
    |resp| >= 3 && resp[0] == NEGATIVE_RESPONSE && resp[2] == RESPONSE_PENDING
  }

  /** Wait out responsePending replies without sending again. */
  function ResolvePending(w: Wire, resp: Bytes, pending: nat, maxPending: nat): (r: Answer)
    requires pending <= maxPending
    ensures r.wire.log == w.log && r.wire.replies == w.replies
    ensures r.result.Ok? ==> !IsPending(r.result.value)
    decreases maxPending - pending
  {
    if !IsPending(resp) then Answer(Ok(resp), w)
    else if pending == maxPending then Answer(Err(TooManyPending), w)
    else
      var next := K.ReadFrame(w);
      match next.result
      case Err(e) => Answer(Err(Line(e)), next.wire)
      case Ok(df) => ResolvePending(next.wire, df.data, pending + 1, maxPending)
  }

  /** Pick the reply out of a raw burst: the positive SID with the echoed first byte, else alone, else 7F. */
  function ExtractResponse(raw: Bytes, service: byte, payload: Bytes): Bytes {
    var pos := PositiveAt(raw, service, payload);
    var neg := Find(raw, [NEGATIVE_RESPONSE, service]);
    if pos >= 0 && (neg < 0 || pos <= neg) then raw[pos..]
    else if neg >= 0 then raw[neg..]
    else []
  }

  function PositiveAt(raw: Bytes, service: byte, payload: Bytes): (pos: int)
    ensures -1 <= pos < |raw|
    ensures pos >= 0 ==> raw[pos] == Positive(service)
  {
    var sid := Positive(service);
    var pair := if payload == [] then -1 else Find(raw, [sid, payload[0]]);
    var pos := if pair < 0 then Find(raw, [sid]) else pair;
    assert pos >= 0 ==> raw[pos] == if pair < 0 then raw[pos..pos + 1][0] else raw[pos..pos + 2][0];
    pos
  }

  /** The pair of SID and echoed identifier is preferred, wherever it comes first; else the first SID, if there is one. */
  lemma SearchPrefersPair(raw: Bytes, service: byte, payload: Bytes)
    ensures var sid, pos := Positive(service), PositiveAt(raw, service, payload);
            && (pos < 0 <==> sid !in raw)
            && (if payload != [] && exists i :: OccursAt(raw, [sid, payload[0]], i) then
                  OccursAt(raw, [sid, payload[0]], pos) && forall i | 0 <= i < pos :: !OccursAt(raw, [sid, payload[0]], i)
                else pos >= 0 ==> raw[pos] == sid && sid !in raw[..pos])
  {
    var sid := Positive(service);
    K.FirstByte(raw, sid);
    if payload != [] {
      var pair := [sid, payload[0]];
      var at := Find(raw, pair);
      assert at >= 0 ==> raw[at] == raw[at..at + 2][0];
      assert forall i :: OccursAt(raw, pair, i) ==> 0 <= i <= |raw|;
    }
  }

  function Interpret(service: byte, resp: Bytes): Result<Bytes, KwpError> {
    if resp == [] then Err(EmptyResponse)
    else if resp[0] == NEGATIVE_RESPONSE then Err(NegativeResponse(service, if |resp| >= 3 then resp[2] else 0))
    else if resp[0] != Positive(service) then Err(UnexpectedSid(resp[0]))
    else Ok(resp[1..])
  }

  function Request(w: Wire, link: Link, service: byte, payload: Bytes, retries: nat): Answer {
    match Encoded(link, service, payload)
    case Err(e) => Answer(Err(Line(K.Unencodable(e))), w)
    case Ok(frame) =>
      if link.tolerant then
        var (raw, heard) := K.Converse(w, frame);
        Answer(Interpret(service, ExtractResponse(raw, service, payload)), heard)
      else
        var first := K.Exchange(w, frame, link.echo, retries);
        match first.result
        case Err(e) => Answer(Err(Line(e)), first.wire)
        case Ok(resp) =>
          var final := ResolvePending(first.wire, resp, 0, link.maxPending);
          if final.result.Err? then final
          else Answer(Interpret(service, final.result.value), final.wire)
  }

  // ---- the strict stack ------------------------------------------------ //

  /** The frames of a reply: the echo if the line has one, responsePending frames, and the last word. */
  ghost function ReplyFrames(echo: bool, frame: Bytes, pending: seq<Bytes>, rest: seq<Bytes>): seq<Bytes> {
    (if echo then [frame] else []) + pending + rest
  }

  ghost predicate AllPending(fs: seq<Bytes>, dfs: seq<DecodedFrame>) {
    K.AllFrames(fs, dfs) && forall i | 0 <= i < |dfs| :: IsPending(dfs[i].data)
  }

  /** Delivered responsePending frames are waited out one by one, without sending, until the last word. */
  lemma {:induction false} PendingThenReply(
      w: Wire, resp: Bytes, fs: seq<Bytes>, dfs: seq<DecodedFrame>, reply: Bytes, df: DecodedFrame, n: nat, max: nat)
    requires IsPending(resp) && n + |fs| < max
    requires AllPending(fs, dfs) && K.IsFrame(reply, df) && !IsPending(df.data)
    requires K.Delivers(w.buf, w.line, fs + [reply])
    ensures ResolvePending(w, resp, n, max).result == Ok(df.data)
    decreases |fs|
  {
    hide FrameAt, K.Delivers, K.ReadFrame;
    if fs == [] {
      assert fs + [reply] == [reply] + [];
      K.ReadsDelivered(w, reply, df, []);
    } else {
      assert fs + [reply] == [fs[0]] + (fs[1..] + [reply]);
      K.ReadsDelivered(w, fs[0], dfs[0], fs[1..] + [reply]);
      PendingThenReply(K.ReadFrame(w).wire, dfs[0].data, fs[1..], dfs[1..], reply, df, n + 1, max);
    }
  }

  /** ... but no longer than the bound. */
  lemma {:induction false} PendingTooLong(
      w: Wire, resp: Bytes, fs: seq<Bytes>, dfs: seq<DecodedFrame>, rest: seq<Bytes>, n: nat, max: nat)
    requires IsPending(resp) && n <= max <= n + |fs|
    requires AllPending(fs, dfs) && K.Delivers(w.buf, w.line, fs + rest)
    ensures ResolvePending(w, resp, n, max).result == Err(TooManyPending)
    decreases |fs|
  {
    hide FrameAt, K.Delivers, K.ReadFrame;
    if n < max {
      assert fs + rest == [fs[0]] + (fs[1..] + rest);
      K.ReadsDelivered(w, fs[0], dfs[0], fs[1..] + rest);
      PendingTooLong(K.ReadFrame(w).wire, dfs[0].data, fs[1..], dfs[1..], rest, n + 1, max);
    }
  }

  /** The wire after some reads. */
  function AfterReads(w: Wire, n: nat): Wire
    decreases n
  {
    if n == 0 then w else AfterReads(K.ReadFrame(w).wire, n - 1)
  }

  /** If nothing readable follows the delivered responsePending frames, the deadline ends the wait. */
  lemma {:induction false} PendingThenSilence(
      w: Wire, resp: Bytes, fs: seq<Bytes>, dfs: seq<DecodedFrame>, n: nat, max: nat)
    requires IsPending(resp) && n + |fs| < max && AllPending(fs, dfs)
    requires K.Delivers(w.buf, w.line, fs) && K.ReadFrame(AfterReads(w, |fs|)).result.Err?
    ensures ResolvePending(w, resp, n, max).result == Err(Line(K.Timeout))
    decreases |fs|
  {
    hide FrameAt, K.Delivers, K.ReadFrame;
    if fs == [] {
      var heard := K.ReadFrameGivesUp(w);
    } else {
      assert fs == [fs[0]] + fs[1..];
      K.ReadsDelivered(w, fs[0], dfs[0], fs[1..]);
      PendingThenSilence(K.ReadFrame(w).wire, dfs[0].data, fs[1..], dfs[1..], n + 1, max);
    }
  }

  lemma EncodedIsFrame(link: Link, service: byte, payload: Bytes)
    requires |payload| < 0xFF
    ensures Encoded(link, service, payload).Ok?
    ensures exists df :: K.IsFrame(Encoded(link, service, payload).value, df)
  {
    var data := [service] + payload;
    EncodeFrames(data, link.target, link.source, link.addressed, false);
    var a := Chosen(link.target, link.source, link.addressed, false);
    var f := Framed(a, data, |data| > MAX_SHORT);
    assert f[0..|f|] == f;
    assert K.IsFrame(f, DecodedFrame(data, a.ToRoute()));
  }

  /** One attempt on a line that delivers echo and reply: one frame out, the first reply frame in. */
  lemma AttemptReadsReply(w: Wire, frame: Bytes, own: DecodedFrame, echo: bool, first: Bytes, df: DecodedFrame, rest: seq<Bytes>)
    requires K.IsFrame(frame, own) && K.IsFrame(first, df)
    requires w.replies != [] && K.Delivers([], w.replies[0], (if echo then [frame] else []) + [first] + rest)
    ensures var r := K.Attempt(w, frame, echo);
            r.result == Ok(df.data) && K.Delivers(r.wire.buf, r.wire.line, rest)
  {
    var sent := w.Transmitted(frame);
    assert sent.line == w.replies[0];
    if echo {
      assert [frame] + [first] + rest == [frame] + ([first] + rest);
      K.ReadsDelivered(sent, frame, own, [first] + rest);
      K.ReadsDelivered(K.ReadFrame(sent).wire, first, df, rest);
    } else {
      assert [] + [first] + rest == [first] + rest;
      K.ReadsDelivered(sent, first, df, rest);
    }
  }

  /** The result of a strict request is decided by the first delivered reply frame and its successors. */
  lemma StrictRequestOnDelivery(w: Wire, link: Link, service: byte, payload: Bytes, retries: nat,
                                first: Bytes, df: DecodedFrame, rest: seq<Bytes>) returns (after: Wire)
    requires !link.tolerant && |payload| < 0xFF && K.IsFrame(first, df)
    requires w.replies != []
    requires K.Delivers([], w.replies[0],
                        (if link.echo then [Encoded(link, service, payload).value] else []) + [first] + rest)
    ensures K.Delivers(after.buf, after.line, rest)
    ensures after.log == w.log + [Sent(Encoded(link, service, payload).value)]
    ensures var final := ResolvePending(after, df.data, 0, link.maxPending);
            Request(w, link, service, payload, retries)
            == if final.result.Err? then final else Answer(Interpret(service, final.result.value), final.wire)
  {
    EncodedIsFrame(link, service, payload);
    var frame := Encoded(link, service, payload).value;
    var own :| K.IsFrame(frame, own);
    AttemptReadsReply(w, frame, own, link.echo, first, df, rest);
    after := K.Attempt(w, frame, link.echo).wire;
  }

  /** One responsePending too many is an error, whatever comes after it. */
  lemma StrictStackGivesUp(w: Wire, link: Link, service: byte, payload: Bytes, retries: nat,
                           pending: seq<Bytes>, pdfs: seq<DecodedFrame>, rest: seq<Bytes>)
    requires !link.tolerant && |payload| < 0xFF && w.replies != []
    requires AllPending(pending, pdfs) && |pending| > link.maxPending
    requires K.Delivers([], w.replies[0],
                        ReplyFrames(link.echo, Encoded(link, service, payload).value, pending, rest))
    ensures var r := Request(w, link, service, payload, retries);
            r.result == Err(TooManyPending)
            && r.wire.log == w.log + [Sent(Encoded(link, service, payload).value)]
  {
    hide Encoded, Request, FrameAt, K.Delivers, Positive;
    EncodedIsFrame(link, service, payload);
    var frame := Encoded(link, service, payload).value;
    var own := if link.echo then [frame] else [];
    assert own + pending + rest == own + [pending[0]] + (pending[1..] + rest);
    var after := StrictRequestOnDelivery(w, link, service, payload, retries, pending[0], pdfs[0], pending[1..] + rest);
    PendingTooLong(after, pdfs[0].data, pending[1..], pdfs[1..], rest, 0, link.maxPending);
  }

  lemma FrameCarriesData(f: Bytes, df: DecodedFrame)
    requires K.IsFrame(f, df)
    ensures df.data != []
  {
  }

  /**
   A line that delivers the echo, up to the bound of responsePending frames and a last word of any kind: one
   frame is sent; a rejection is reported with its code, a foreign SID as such, and a positive reply
   returned without its SID.
   */
  lemma StrictStackVerdict(w: Wire, link: Link, service: byte, payload: Bytes, retries: nat,
                           pending: seq<Bytes>, pdfs: seq<DecodedFrame>, reply: Bytes, df: DecodedFrame)
    requires !link.tolerant && |payload| < 0xFF && w.replies != []
    requires AllPending(pending, pdfs) && |pending| <= link.maxPending
    requires K.IsFrame(reply, df) && !IsPending(df.data)
    requires K.Delivers([], w.replies[0],
                        ReplyFrames(link.echo, Encoded(link, service, payload).value, pending, [reply]))
    ensures var r := Request(w, link, service, payload, retries);
            && r.wire.log == w.log + [Sent(Encoded(link, service, payload).value)]
            && r.result == (if df.data[0] == NEGATIVE_RESPONSE then
                              Err(NegativeResponse(service, if |df.data| >= 3 then df.data[2] else 0))
                            else if df.data[0] == Positive(service) then Ok(df.data[1..])
                            else Err(UnexpectedSid(df.data[0])))
  {
    hide Encoded, Request, FrameAt, K.Delivers, Positive;
    EncodedIsFrame(link, service, payload);
    FrameCarriesData(reply, df);
    var frame := Encoded(link, service, payload).value;
    var own := if link.echo then [frame] else [];
    if pending == [] {
      assert own + pending + [reply] == own + [reply] + [];
      var after := StrictRequestOnDelivery(w, link, service, payload, retries, reply, df, []);
    } else {
      assert own + pending + [reply] == own + [pending[0]] + (pending[1..] + [reply]);
      var after := StrictRequestOnDelivery(w, link, service, payload, retries, pending[0], pdfs[0], pending[1..] + [reply]);
      PendingThenReply(after, pdfs[0].data, pending[1..], pdfs[1..], reply, df, 0, link.maxPending);
    }
  }

  /** A data field that does not fit a frame is refused, and nothing is sent. */
  lemma OversizedIsNotSent(w: Wire, link: Link, service: byte, payload: Bytes, retries: nat)
    ensures Encoded(link, service, payload).Ok? <==> |payload| < 0xFF
    ensures |payload| >= 0xFF ==>
              Request(w, link, service, payload, retries) == Answer(Err(Line(K.Unencodable(DataTooLong))), w)
  {
    EncodeRejects([service] + payload, link.target, link.source, link.addressed, false);
    if |payload| < 0xFF {
      EncodedIsFrame(link, service, payload);
    }
  }

  /** Whatever decides the outcome, a delivered reply frame means that the request went out once. */
  lemma StrictStackSendsOnce(w: Wire, link: Link, service: byte, payload: Bytes, retries: nat,
                             first: Bytes, df: DecodedFrame, rest: seq<Bytes>)
    requires !link.tolerant && |payload| < 0xFF && K.IsFrame(first, df) && w.replies != []
    requires K.Delivers([], w.replies[0],
                        (if link.echo then [Encoded(link, service, payload).value] else []) + [first] + rest)
    ensures Request(w, link, service, payload, retries).wire.log
         == w.log + [Sent(Encoded(link, service, payload).value)]
  {
    hide Encoded, Request, FrameAt, K.Delivers;
    var after := StrictRequestOnDelivery(w, link, service, payload, retries, first, df, rest);
  }

  /**
   The full strict stack. If the line delivers the echo, k responsePending frames and a positive reply,
   exactly one frame is sent, and the caller gets the reply's data after the SID exactly when k is
   within the bound and the positive SID is not 0x7F itself.
   */
  lemma StrictStackAnswers(w: Wire, link: Link, service: byte, payload: Bytes, retries: nat,
                           pending: seq<Bytes>, pdfs: seq<DecodedFrame>, reply: Bytes, df: DecodedFrame)
    requires !link.tolerant && |payload| < 0xFF && w.replies != []
    requires AllPending(pending, pdfs)
    requires K.IsFrame(reply, df) && df.data[0] == Positive(service)
    requires K.Delivers([], w.replies[0],
                        ReplyFrames(link.echo, Encoded(link, service, payload).value, pending, [reply]))
    ensures var r := Request(w, link, service, payload, retries);
            && r.wire.log == w.log + [Sent(Encoded(link, service, payload).value)]
            && (r.result == Ok(df.data[1..]) <==>
                  |pending| <= link.maxPending && Positive(service) != NEGATIVE_RESPONSE)
  {
    hide Encoded, Request, FrameAt, K.Delivers, Positive;
    if |pending| > link.maxPending {
      StrictStackGivesUp(w, link, service, payload, retries, pending, pdfs, [reply]);
    } else if Positive(service) != NEGATIVE_RESPONSE {
      StrictStackVerdict(w, link, service, payload, retries, pending, pdfs, reply, df);
    } else {
      NegativeSidNeverSucceeds(w, link, service, payload, retries);
      EncodedIsFrame(link, service, payload);
      var own := if link.echo then [Encoded(link, service, payload).value] else [];
      var all := pending + [reply];
      assert own + pending + [reply] == own + [all[0]] + all[1..];
      StrictStackSendsOnce(w, link, service, payload, retries, all[0],
                           if pending == [] then df else pdfs[0], all[1..]);
    }
  }

  /** Services 0x3F and 0x7F share their positive SID with 0x7F: no bus can make such a request succeed. */
  lemma NegativeSidNeverSucceeds(w: Wire, link: Link, service: byte, payload: Bytes, retries: nat)
    requires Positive(service) == NEGATIVE_RESPONSE
    ensures service == 0x3F || service == 0x7F
    ensures Request(w, link, service, payload, retries).result.Err?
  {
  }

  // ---- nothing heard --------------------------------------------------- //

  lemma {:induction false} PendingAbsent(w: Wire, resp: Bytes, n: nat, max: nat, b: byte)
    requires n <= max && K.Absent(w, b) && b !in resp
    ensures var r := ResolvePending(w, resp, n, max);
            r.result.Ok? ==> b !in r.result.value
    decreases max - n
  {
    hide K.Absent, K.ReadFrame;
    if IsPending(resp) && n < max {
      K.ReadFrameAbsent(w, b);
      var next := K.ReadFrame(w);
      if next.result.Ok? {
        PendingAbsent(next.wire, next.result.value.data, n + 1, max, b);
      }
    }
  }

  /** A strict request fails if none of the answers to its transmissions holds the positive SID anywhere. */
  lemma StrictNeedsPositive(w: Wire, link: Link, service: byte, payload: Bytes, retries: nat) returns (n: nat)
    requires !link.tolerant && Encoded(link, service, payload).Ok?
    ensures 1 <= n <= retries + 1
    ensures var r := Request(w, link, service, payload, retries);
            && r.wire.log == w.log + K.Repeat(Sent(Encoded(link, service, payload).value), n)
            && r.wire.replies == K.Later(w.replies, n)
            && ((forall i | 0 <= i < n :: Positive(service) !in Flatten(K.ReplyTo(w.replies, i))) ==> r.result.Err?)
  {
    hide Encoded, Positive, ResolvePending, K.Exchange, K.Absent;
    var frame := Encoded(link, service, payload).value;
    n := K.ExchangeHears(w, frame, link.echo, retries, Positive(service));
    var first := K.Exchange(w, frame, link.echo, retries);
    if first.result.Ok? && forall i | 0 <= i < n :: Positive(service) !in Flatten(K.ReplyTo(w.replies, i)) {
      PendingAbsent(first.wire, first.result.value, 0, link.maxPending, Positive(service));
    }
  }

  // ---- the object ------------------------------------------------------ //

  class Kwp2000 {
    const k: K.KLine
    const maxPending: nat
    const tolerant: bool
    const addressed: bool

    constructor (k: K.KLine, maxPending: nat, tolerant: bool, addressed: bool)
      ensures this.k == k && this.maxPending == maxPending
      ensures this.tolerant == tolerant && this.addressed == addressed
    {
      this.k, this.maxPending, this.tolerant, this.addressed := k, maxPending, tolerant, addressed;
    }

    function LinkOf(): Link {
      Link(k.target, k.source, k.echo, maxPending, tolerant, addressed)
    }

    method Extract(raw: Bytes, service: byte, payload: Bytes) returns (resp: Bytes)
      ensures resp == ExtractResponse(raw, service, payload)
    {
      var sid := Positive(service);
      var pos := -1;
      if payload != [] {
        pos := Find(raw, [sid, payload[0]]);
      }
      if pos < 0 {
        pos := Find(raw, [sid]);
      }
      var neg := Find(raw, [NEGATIVE_RESPONSE, service]);
      if pos >= 0 && (neg < 0 || pos <= neg) {
        return raw[pos..];
      }
      if neg >= 0 {
        return raw[neg..];
      }
      return [];
    }

    method WaitOutPending(first: Bytes) returns (r: Result<Bytes, KwpError>)
      modifies k, k.t
      ensures Answer(r, k.State()) == ResolvePending(old(k.State()), first, 0, maxPending)
    {
      var resp := first;
      var pending := 0;
      while IsPending(resp)
        invariant pending <= maxPending
        invariant ResolvePending(k.State(), resp, pending, maxPending)
               == ResolvePending(old(k.State()), first, 0, maxPending)
        decreases maxPending - pending
      {
        if pending >= maxPending {
          return Err(TooManyPending);
        }
        pending := pending + 1;
        var next := k.ReadNextFrame();
        match next {
          case Err(e) => return Err(Line(e));
          case Ok(df) => resp := df.data;
        }
      }
      return Ok(resp);
    }

    method Call(service: byte, payload: Bytes, retries: nat) returns (r: Result<Bytes, KwpError>)
      modifies k, k.t
      ensures Answer(r, k.State()) == Request(old(k.State()), LinkOf(), service, payload, retries)
    {
      var resp;
      if tolerant {
        var frame := Encoded(LinkOf(), service, payload);
        if frame.Err? {
          return Err(Line(K.Unencodable(frame.error)));
        }
        var raw := k.ConverseFrame(frame.value);
        resp := Extract(raw, service, payload);
      } else {
        var first := k.Request([service] + payload, retries, addressed);
        if first.Err? {
          return Err(Line(first.error));
        }
        var final := WaitOutPending(first.value);
        if final.Err? {
          return final;
        }
        resp := final.value;
      }
      if resp == [] {
        return Err(EmptyResponse);
      }
      if resp[0] == NEGATIVE_RESPONSE {
        return Err(NegativeResponse(service, if |resp| >= 3 then resp[2] else 0));
      }
      if resp[0] != Positive(service) {
        return Err(UnexpectedSid(resp[0]));
      }
      return Ok(resp[1..]);
    }
  }
}
