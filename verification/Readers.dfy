/** Three independent readers of one reply - strict, tolerant, firmware - and when they agree. */
module Readers {
  import opened Wrappers
  import opened ByteStrings
  import opened Frame
  import opened Bus
  import opened Kwp2000
  import opened Sequences
  import K = KLine
  import F = Firmware

  /** The tolerant reader's verdict on a raw burst. */
  function Tolerant(raw: Bytes, service: byte, payload: Bytes): Result<Bytes, KwpError> {
    Interpret(service, ExtractResponse(raw, service, payload))
  }

  lemma FirmwareSendsTheSameFrame(service: byte, payload: Bytes, link: Link)
    requires |payload| < MAX_SHORT && !link.addressed
    ensures Encoded(link, service, payload) == Ok(F.RequestBytes(service, payload))
  {
    var n: byte := 1 + |payload|;
    assert [n] + ([service] + payload) == [n, service] + payload;
  }

  /** The tolerant reader accepts a burst exactly if it finds the positive SID, and no rejection in front of it. */
  lemma TolerantAcceptsIff(raw: Bytes, service: byte, payload: Bytes)
    ensures var r, pos, neg := Tolerant(raw, service, payload), PositiveAt(raw, service, payload),
                               Find(raw, [NEGATIVE_RESPONSE, service]);
            && (r.Ok? <==> Positive(service) != NEGATIVE_RESPONSE && pos >= 0 && (neg < 0 || pos <= neg))
            && (r.Ok? ==> r.value == raw[pos + 1..])
            && (neg >= 0 && (pos < 0 || neg < pos) ==>
                  r == Err(NegativeResponse(service, if neg + 2 < |raw| then raw[neg + 2] else 0)))
            && (neg < 0 && pos < 0 ==> r == Err(EmptyResponse))
            && (Positive(service) == NEGATIVE_RESPONSE && pos >= 0 && (neg < 0 || pos <= neg) ==>
                  r == Err(NegativeResponse(service, if pos + 2 < |raw| then raw[pos + 2] else 0)))
  {
    var pos, neg := PositiveAt(raw, service, payload), Find(raw, [NEGATIVE_RESPONSE, service]);
    if pos >= 0 {
      assert raw[pos..][1..] == raw[pos + 1..];
    }
    if neg >= 0 {
      assert raw[neg..neg + 2][0] == NEGATIVE_RESPONSE;
    }
  }

  /** What the length byte announces after the SID, but no more than there is and no more than the caller can take. */
  function FieldLength(announced: byte, available: nat, outCap: nat): (n: nat)
    ensures n <= outCap && n <= available && (n == outCap || n == available || n + 1 == announced || announced == 0 == n)
  {
    var field: nat := if announced == 0 then 0 else announced - 1;
    var held := if field <= available then field else available;
    if held <= outCap then held else outCap
  }

  /**
   On any burst it holds, the firmware answers exactly when the tolerant reader does and the SID is not
   the very first byte; what it returns is then a prefix of the tolerant answer. Services 0x3F and 0x7F are
   different: there the firmware may take a rejection for an answer, and the tolerant reader never does.
   */
  lemma FirmwareAnswersPrefixOfTolerant(raw: Bytes, service: byte, payload: Bytes, outCap: nat)
    ensures var reply := F.Reply(raw, service, payload, outCap);
            var tolerant, pos := Tolerant(raw, service, payload), PositiveAt(raw, service, payload);
            && (Positive(service) != NEGATIVE_RESPONSE ==> (reply.Some? <==> tolerant.Ok? && pos != 0))
            && (Positive(service) == NEGATIVE_RESPONSE ==>
                  tolerant.Err? && (reply.Some? <==> pos >= 1 && !RejectedBefore(raw, service, pos)))
            && (reply.Some? && tolerant.Ok? ==> reply.value <= tolerant.value)
            && (reply.Some? ==> |reply.value| == FieldLength(raw[pos - 1], |raw| - (pos + 1), outCap))
  {
    hide Tolerant, PositiveAt, Find;
    TolerantAcceptsIff(raw, service, payload);
    RejectionIsFound(raw, service, PositiveAt(raw, service, payload));
  }

  /** A rejection of the service begins in front of `pos`. */
  predicate RejectedBefore(raw: Bytes, service: byte, pos: int) {
    exists i | 0 <= i < pos :: OccursAt(raw, [NEGATIVE_RESPONSE, service], i)
  }

  lemma RejectionIsFound(raw: Bytes, service: byte, pos: int)
    requires pos <= |raw|
    ensures var neg := Find(raw, [NEGATIVE_RESPONSE, service]);
            RejectedBefore(raw, service, pos) <==> 0 <= neg < pos
  {
  }

  /** Searching a longer string finds what its prefix holds, or something past the prefix. */
  lemma FindInPrefix(held: Bytes, raw: Bytes, pat: Bytes)
    requires held <= raw && pat != []
    ensures var i, j := Find(held, pat), Find(raw, pat);
            if i >= 0 then j == i else j < 0 || j + |pat| > |held|
  {
    var i, j := Find(held, pat), Find(raw, pat);
    forall k | 0 <= k && k + |pat| <= |held| ensures OccursAt(held, pat, k) <==> OccursAt(raw, pat, k) {
      assert held[k..k + |pat|] == raw[k..k + |pat|];
    }
    assert i >= 0 ==> i + |pat| <= |held|;
    if j >= 0 && j + |pat| <= |held| {
      assert OccursAt(held, pat, j);
    }
  }

  /** The SID with the echoed identifier, if it comes at all, comes within what the firmware's buffer holds. */
  predicate PairHeld(raw: Bytes, service: byte, payload: Bytes) {
    payload != [] && Find(raw, [Positive(service), payload[0]]) >= 0 ==>
      Find(Truncate(raw, F.BURST_SIZE), [Positive(service), payload[0]]) >= 0
  }

  lemma SearchOfHeld(raw: Bytes, service: byte, payload: Bytes)
    ensures var held := Truncate(raw, F.BURST_SIZE);
            var p, q := PositiveAt(held, service, payload), PositiveAt(raw, service, payload);
            p >= 0 && PairHeld(raw, service, payload) ==> q == p
    ensures var held := Truncate(raw, F.BURST_SIZE);
            var m, n := Find(held, [NEGATIVE_RESPONSE, service]), Find(raw, [NEGATIVE_RESPONSE, service]);
            if m >= 0 then n == m else n < 0 || n + 2 > |held|
  {
    var held := Truncate(raw, F.BURST_SIZE);
    hide Find;
    FindInPrefix(held, raw, [NEGATIVE_RESPONSE, service]);
    FindInPrefix(held, raw, [Positive(service)]);
    if payload != [] {
      FindInPrefix(held, raw, [Positive(service), payload[0]]);
    }
  }

  /**
   A burst may be longer than the firmware's buffer. What the firmware returns is then still a prefix of
   the tolerant answer to the whole burst, exactly if the buffer holds the SID with its identifier, or if
   the firmware returns nothing but the tolerant reader does answer.
   */
  lemma FirmwareAnswersPrefixIff(raw: Bytes, service: byte, payload: Bytes, outCap: nat)
    ensures var reply := F.Reply(Truncate(raw, F.BURST_SIZE), service, payload, outCap);
            var tolerant := Tolerant(raw, service, payload);
            reply.Some? ==>
              (tolerant.Ok? && reply.value <= tolerant.value
               <==> Positive(service) != NEGATIVE_RESPONSE
                    && (PairHeld(raw, service, payload)
                        || (reply.value == [] && !RejectedBefore(raw, service, PositiveAt(raw, service, payload)))))
  {
    hide Tolerant, Find, PositiveAt, RejectedBefore;
    var held := Truncate(raw, F.BURST_SIZE);
    SearchOfHeld(raw, service, payload);
    TolerantAcceptsIff(raw, service, payload);
    RejectionIsFound(raw, service, PositiveAt(raw, service, payload));
    var reply := F.Reply(held, service, payload, outCap);
    if reply.Some? {
      var p := PositiveAt(held, service, payload);
      if PairHeld(raw, service, payload) {
        assert held[p + 1..] <= raw[p + 1..];
      } else {
        LatePairDiffers(raw, held, service, payload);
        assert reply.value != [] ==> reply.value[0] == held[p + 1];
      }
    }
  }

  /** If the pair comes too late, the two readers answer from different places with different first bytes. */
  lemma LatePairDiffers(raw: Bytes, held: Bytes, service: byte, payload: Bytes)
    requires held == Truncate(raw, F.BURST_SIZE) && !PairHeld(raw, service, payload)
    ensures var p := PositiveAt(held, service, payload);
            p >= 0 && p + 1 < |held| ==> held[p + 1] != payload[0]
    ensures var q := PositiveAt(raw, service, payload);
            q >= 0 && q + 1 < |raw| && raw[q + 1] == payload[0] && raw[q] == Positive(service)
  {
    var p, q := PositiveAt(held, service, payload), PositiveAt(raw, service, payload);
    assert raw[q] == raw[q..q + 2][0] && raw[q + 1] == raw[q..q + 2][1];
    if p >= 0 && p + 1 < |held| && held[p + 1] == payload[0] {
      assert held[p..p + 2] == [held[p], held[p + 1]];
      assert OccursAt(held, [Positive(service), payload[0]], p);
    }
  }

  /** A burst that is misread: a stray SID early, the reply to `21 01` only after the 96 bytes the firmware keeps. */
  lemma LateReplyIsMisread(gap: Bytes, raw: Bytes)
    requires |gap| == 94 && forall i | 0 <= i < |gap| :: gap[i] == 0
    requires raw == [0x02, 0x61] + gap + [0x61, 0x01, 0x05]
    ensures F.Reply(Truncate(raw, F.BURST_SIZE), 0x21, [0x01], 1) == Some([0])
    ensures Tolerant(raw, 0x21, [0x01]) == Ok([0x01, 0x05])
  {
    hide Find;
    var held := Truncate(raw, F.BURST_SIZE);
    assert held == [0x02, 0x61] + gap;
    PairNotIn(raw, NEGATIVE_RESPONSE, 0x21);
    PairNotIn(held, NEGATIVE_RESPONSE, 0x21);
    assert raw[96..98] == [0x61, 0x01] && held[1..2] == [0x61] && Positive(0x21) == 0x61;
    forall j | 0 <= j < 96 ensures !OccursAt(raw, [0x61, 0x01], j) && !OccursAt(held, [0x61, 0x01], j) {
      assert raw[j..j + 2][0] == raw[j] && raw[j..j + 2][1] == raw[j + 1];
      assert j + 2 <= 96 ==> held[j..j + 2] == raw[j..j + 2];
    }
    LeastOccurrence(raw, [0x61, 0x01], 96);
    assert forall j | 0 <= j <= 96 :: !OccursAt(held, [0x61, 0x01], j);
    NotFound(held, [0x61, 0x01]);
    assert !OccursAt(held, [0x61], 0) by { assert held[0..1][0] == 0x02; }
    LeastOccurrence(held, [0x61], 1);
    assert held[2..][..1] == [0] && raw[96..][1..] == [0x01, 0x05];
  }

  lemma NotFound(s: Bytes, pat: Bytes)
    requires forall j | 0 <= j <= |s| :: !OccursAt(s, pat, j)
    ensures Find(s, pat) == -1
  {
  }

  /** Neither the expected reply nor a rejection appears to begin inside the echo. */
  ghost predicate EchoIsInnocent(echo: Bytes, raw: Bytes, service: byte, id: byte) {
    forall i | 0 <= i < |echo| ::
      !OccursAt(raw, [Positive(service), id], i) && !OccursAt(raw, [NEGATIVE_RESPONSE, service], i)
  }

  /** An undamaged, unaddressed reply that carries the positive SID and the echoed identifier. */
  predicate EchoesId(resp: Bytes, service: byte, payload: Bytes) {
    2 <= |resp| <= MAX_SHORT && payload != [] && resp[0] == Positive(service) && resp[1] == payload[0]
  }

  function ReplyFrame(resp: Bytes): Bytes
    requires 1 <= |resp| <= MAX_SHORT
  {
    Framed(Unaddressed, resp, false)
  }

  lemma LeastOccurrence(s: Bytes, pat: Bytes, i: nat)
    requires OccursAt(s, pat, i) && forall j | 0 <= j < i :: !OccursAt(s, pat, j)
    ensures Find(s, pat) == i
  {
  }

  /** Behind an innocent echo the search lands on the reply's SID. */
  lemma SearchLandsOnReply(echo: Bytes, resp: Bytes, service: byte, payload: Bytes)
    requires EchoesId(resp, service, payload)
    requires EchoIsInnocent(echo, echo + ReplyFrame(resp), service, payload[0])
    ensures var raw := echo + ReplyFrame(resp);
            var neg := Find(raw, [NEGATIVE_RESPONSE, service]);
            PositiveAt(raw, service, payload) == |echo| + 1 && (neg < 0 || |echo| + 1 <= neg)
  {
    var raw := echo + ReplyFrame(resp);
    assert raw[|echo|] == |resp| < 64 <= Positive(service);
    assert raw[|echo| + 1] == resp[0] && raw[|echo| + 2] == resp[1];
    assert OccursAt(raw, [resp[0], resp[1]], |echo| + 1);
    forall pat: Bytes | |pat| == 2 && pat[0] >= 64 ensures !OccursAt(raw, pat, |echo|) {
      assert raw[|echo|..|echo| + 2][0] == raw[|echo|];
    }
    LeastOccurrence(raw, [Positive(service), payload[0]], |echo| + 1);
  }

  function WithChecksum(resp: Bytes): Bytes
    requires 1 <= |resp| <= MAX_SHORT
  {
    resp + [Checksum([|resp|] + resp)]
  }

  lemma TolerantReadsReply(echo: Bytes, resp: Bytes, service: byte, payload: Bytes)
    requires EchoesId(resp, service, payload) && Positive(service) != NEGATIVE_RESPONSE
    requires EchoIsInnocent(echo, echo + ReplyFrame(resp), service, payload[0])
    ensures Tolerant(echo + ReplyFrame(resp), service, payload) == Ok(WithChecksum(resp)[1..])
  {
    hide PositiveAt, EchoIsInnocent, Checksum;
    var raw := echo + ReplyFrame(resp);
    SearchLandsOnReply(echo, resp, service, payload);
    assert raw == echo + [|resp| as byte] + WithChecksum(resp);
    assert raw[|echo| + 1..] == WithChecksum(resp);
  }

  /** A pair found inside the echo makes the tolerant reader start too early or see a rejection. */
  lemma GuiltyEchoMisleads(echo: Bytes, raw: Bytes, service: byte, payload: Bytes)
    requires payload != [] && Positive(service) != NEGATIVE_RESPONSE
    requires !EchoIsInnocent(echo, raw, service, payload[0])
    ensures var r := Tolerant(raw, service, payload);
            r.Ok? ==> |r.value| >= |raw| - |echo|
  {
    var neg := Find(raw, [NEGATIVE_RESPONSE, service]);
    assert neg >= 0 ==> raw[neg..][0] == raw[neg..neg + 2][0];
  }

  /**
   The tolerant reader gives the reply's data and one trailing checksum byte exactly when the echo is
   innocent: a pair beginning in the echo may end on the reply's length byte.
   */
  lemma TolerantReadsReplyIffEchoInnocent(echo: Bytes, resp: Bytes, service: byte, payload: Bytes)
    requires EchoesId(resp, service, payload) && Positive(service) != NEGATIVE_RESPONSE
    ensures var raw := echo + ReplyFrame(resp);
            Tolerant(raw, service, payload) == Ok(WithChecksum(resp)[1..])
            <==> EchoIsInnocent(echo, raw, service, payload[0])
  {
    hide Tolerant, EchoIsInnocent;
    var raw := echo + ReplyFrame(resp);
    if EchoIsInnocent(echo, raw, service, payload[0]) {
      TolerantReadsReply(echo, resp, service, payload);
    } else {
      GuiltyEchoMisleads(echo, raw, service, payload);
    }
  }

  lemma OccursBehind(head: Bytes, tail: Bytes, pat: Bytes, i: int)
    requires pat != [] && pat[0] !in head
    ensures OccursAt(head + tail, pat, i) <==> OccursAt(tail, pat, i - |head|)
  {
    var raw := head + tail;
    if 0 <= i <= i + |pat| <= |raw| {
      if i < |head| {
        assert raw[i..i + |pat|][0] == head[i];
      } else {
        assert raw[i..i + |pat|] == tail[i - |head|..i - |head| + |pat|];
      }
    }
  }

  /** A search passes over a part in which the pattern's first byte does not occur. */
  lemma FindBehind(head: Bytes, tail: Bytes, pat: Bytes)
    requires pat != [] && pat[0] !in head
    ensures var j := Find(tail, pat);
            Find(head + tail, pat) == if j >= 0 then |head| + j else -1
  {
    hide OccursAt;
    var raw, j := head + tail, Find(tail, pat);
    forall i ensures OccursAt(raw, pat, i) <==> OccursAt(tail, pat, i - |head|) {
      OccursBehind(head, tail, pat, i);
    }
    forall i | 0 <= i < |head| ensures !OccursAt(raw, pat, i) {
      OccursNowhereNegative(tail, pat, i - |head|);
    }
    if j >= 0 {
      assert OccursAt(raw, pat, |head| + j);
      LeastOccurrence(raw, pat, |head| + j);
    } else {
      NotFound(raw, pat);
    }
  }

  lemma OccursNowhereNegative(s: Bytes, pat: Bytes, i: int)
    requires i < 0
    ensures !OccursAt(s, pat, i)
  {
  }

  /**
   A reply that need not echo an identifier, behind an echo free of both SIDs, is read to its end exactly if
   the pair the search prefers does not occur later in it.
   */
  lemma TolerantReadsUnechoedReplyIff(echo: Bytes, resp: Bytes, service: byte, payload: Bytes)
    requires Positive(service) !in echo && NEGATIVE_RESPONSE !in echo && Positive(service) != NEGATIVE_RESPONSE
    requires 1 <= |resp| <= MAX_SHORT && resp[0] == Positive(service)
    ensures Tolerant(echo + ReplyFrame(resp), service, payload) == Ok(WithChecksum(resp)[1..])
       <==> payload == [] || Find(WithChecksum(resp), [Positive(service), payload[0]]) <= 0
  {
    hide Tolerant, Find, Checksum, PositiveAt;
    var head, tail := echo + [|resp| as byte], WithChecksum(resp);
    var raw := echo + ReplyFrame(resp);
    assert raw == head + tail;
    TolerantAcceptsIff(raw, service, payload);
    SearchBehindEcho(head, tail, service, payload);
    var pos := PositiveAt(raw, service, payload);
    assert raw[|head| + 1..] == tail[1..];
    if pos == |head| {
      assert Tolerant(raw, service, payload) == Ok(tail[1..]);
    } else if Tolerant(raw, service, payload).Ok? {
      assert |Tolerant(raw, service, payload).value| == |raw| - pos - 1 < |tail[1..]|;
    }
    assert pos == |head| <==> payload == [] || Find(tail, [Positive(service), payload[0]]) <= 0;
    assert Tolerant(raw, service, payload) == Ok(tail[1..]) <==> pos == |head|;
  }

  /** Where the search lands in what begins with the SID, behind something free of both SIDs. */
  lemma SearchBehindEcho(head: Bytes, tail: Bytes, service: byte, payload: Bytes)
    requires Positive(service) !in head && NEGATIVE_RESPONSE !in head
    requires tail != [] && tail[0] == Positive(service) != NEGATIVE_RESPONSE
    ensures var later := payload != [] && Find(tail, [Positive(service), payload[0]]) > 0;
            var pos, neg := PositiveAt(head + tail, service, payload), Find(head + tail, [NEGATIVE_RESPONSE, service]);
            && pos == |head| + (if later then Find(tail, [Positive(service), payload[0]]) else 0)
            && (neg < 0 || neg > |head|)
  {
    hide Find, Positive;
    var sid := Positive(service);
    FindBehind(head, tail, [sid]);
    FindBehind(head, tail, [NEGATIVE_RESPONSE, service]);
    if payload != [] {
      FindBehind(head, tail, [sid, payload[0]]);
    }
    K.FirstByte(tail, sid);
    NotFoundAtStart(tail, [NEGATIVE_RESPONSE, service]);
  }

  lemma NotFoundAtStart(s: Bytes, pat: Bytes)
    requires s != [] && pat != [] && s[0] != pat[0]
    ensures Find(s, pat) != 0
  {
    if |pat| <= |s| {
      assert s[0..|pat|][0] == s[0];
    }
  }

  /** A reply of the SID alone, as `50` to `10 A0`, always is. */
  lemma TolerantReadsBareReply(echo: Bytes, service: byte, payload: Bytes)
    requires Positive(service) !in echo && NEGATIVE_RESPONSE !in echo && Positive(service) != NEGATIVE_RESPONSE
    ensures Tolerant(echo + ReplyFrame([Positive(service)]), service, payload)
         == Ok([Checksum([1, Positive(service)])])
  {
    hide Tolerant, Checksum;
    var sid := Positive(service);
    TolerantReadsUnechoedReplyIff(echo, [sid], service, payload);
    assert [1] + [sid] == [1, sid];
    assert WithChecksum([sid])[1..] == [Checksum([1, sid])];
    assert |WithChecksum([sid])| == 2;
  }

  /** The simplest sufficient condition on the echo alone. */
  lemma CleanEchoIsInnocent(echo: Bytes, raw: Bytes, service: byte, id: byte)
    requires echo <= raw && Positive(service) !in echo && NEGATIVE_RESPONSE !in echo
    ensures EchoIsInnocent(echo, raw, service, id)
  {
    forall i | 0 <= i < |echo|
      ensures !OccursAt(raw, [Positive(service), id], i) && !OccursAt(raw, [NEGATIVE_RESPONSE, service], i)
    {
      assert raw[i] == echo[i];
      assert i + 2 <= |raw| ==> raw[i..i + 2][0] == raw[i];
    }
  }

  lemma FirmwareReadsReply(echo: Bytes, resp: Bytes, service: byte, payload: Bytes, outCap: nat)
    requires EchoesId(resp, service, payload) && outCap >= |resp| - 1
    requires EchoIsInnocent(echo, echo + ReplyFrame(resp), service, payload[0])
    ensures F.Reply(echo + ReplyFrame(resp), service, payload, outCap) == Some(resp[1..])
  {
    var raw := echo + ReplyFrame(resp);
    SearchLandsOnReply(echo, resp, service, payload);
    var idx := |echo| + 1;
    assert raw[idx - 1] == |resp|;
    assert raw[idx + 1..] == resp[1..] + [Checksum([|resp|] + resp)];
    assert raw[idx + 1..][..|resp| - 1] == resp[1..];
  }

  lemma StrictReadsReply(w: Wire, link: Link, service: byte, payload: Bytes, retries: nat, k: nat, resp: Bytes)
    requires !link.tolerant && |payload| < 0xFF && Positive(service) != NEGATIVE_RESPONSE
    requires 1 <= |resp| <= MAX_SHORT && resp[0] == Positive(service)
    requires w.replies != []
    requires K.Delivers([], w.replies[0], ReplyFrames(link.echo, Encoded(link, service, payload).value,
                                                      PendingReplies(service, k), [ReplyFrame(resp)]))
    ensures Request(w, link, service, payload, retries).result == Ok(resp[1..]) <==> k <= link.maxPending
  {
    hide Request, Encoded, K.Delivers, Positive;
    var df, pdf := DecodedFrame(resp, None), DecodedFrame(PendingReply(service), None);
    ReplyFrameIsFrame(resp);
    ReplyFrameIsFrame(PendingReply(service));
    StrictStackAnswers(w, link, service, payload, retries, PendingReplies(service, k), seq(k, _ => pdf),
                       ReplyFrame(resp), df);
  }

  lemma ReplyFrameIsFrame(resp: Bytes)
    requires 1 <= |resp| <= MAX_SHORT
    ensures K.IsFrame(ReplyFrame(resp), DecodedFrame(resp, None))
  {
    var f := ReplyFrame(resp);
    assert f[0..|f|] == f && Unaddressed.ToRoute() == None;
  }

  /**
   One undamaged reply behind its echo, read three ways, however the line is cut into chunks: the strict
   stack returns the data, the tolerant one the data and one checksum byte, the firmware the data.
   */
  lemma ThreeReadersAgree(w: Wire, link: Link, service: byte, payload: Bytes, retries: nat, resp: Bytes, outCap: nat)
    requires !link.addressed && link.echo && Positive(service) != NEGATIVE_RESPONSE
    requires EchoesId(resp, service, payload) && |payload| + 3 <= F.REQ_SIZE && outCap >= |resp| - 1
    requires var echo := F.RequestBytes(service, payload);
             && w.replies != [] && K.Delivers([], w.replies[0], [echo, ReplyFrame(resp)])
             && K.BurstRead(w.replies[0], false).bytes == echo + ReplyFrame(resp)
             && EchoIsInnocent(echo, echo + ReplyFrame(resp), service, payload[0])
    ensures var burst := Truncate(K.BurstRead(w.replies[0], false).bytes, F.BURST_SIZE);
            && Request(w, link.(tolerant := false), service, payload, retries).result == Ok(resp[1..])
            && Request(w, link.(tolerant := true), service, payload, retries).result == Ok(WithChecksum(resp)[1..])
            && F.Reply(burst, service, payload, outCap) == Some(resp[1..])
  {
    hide Request, F.Reply, Encoded, EchoIsInnocent, K.Delivers, K.BurstRead, Tolerant;
    var echo, reply := F.RequestBytes(service, payload), ReplyFrame(resp);
    FirmwareSendsTheSameFrame(service, payload, link.(tolerant := false));
    FirmwareSendsTheSameFrame(service, payload, link.(tolerant := true));
    assert ReplyFrames(true, echo, PendingReplies(service, 0), [reply]) == [echo, reply];
    StrictReadsReply(w, link.(tolerant := false), service, payload, retries, 0, resp);
    TolerantRequestHears(w, link.(tolerant := true), service, payload, retries);
    TolerantReadsReply(echo, resp, service, payload);
    FirmwareReadsReply(echo, resp, service, payload, outCap);
  }

  lemma TolerantRequestHears(w: Wire, link: Link, service: byte, payload: Bytes, retries: nat)
    requires link.tolerant && w.replies != [] && Encoded(link, service, payload).Ok?
    ensures Request(w, link, service, payload, retries).result
         == Tolerant(K.BurstRead(w.replies[0], false).bytes, service, payload)
  {
    hide Encoded, K.BurstRead, Interpret, ExtractResponse;
    assert [] + w.replies[0] == w.replies[0];
  }

  // ---- replies that are not ready yet ---------------------------------- //

  /** "Received, response pending" (ISO 14230-3). */
  function PendingReply(service: byte): Bytes {
    [NEGATIVE_RESPONSE, service, RESPONSE_PENDING]
  }

  function PendingReplies(service: byte, k: nat): seq<Bytes> {
    seq(k, _ => ReplyFrame(PendingReply(service)))
  }

  function Rejection(service: byte, code: byte): Bytes {
    [NEGATIVE_RESPONSE, service, code]
  }

  /** Behind a clean echo the first rejection of the service decides, whatever follows it. */
  lemma RejectionIsFinal(echo: Bytes, service: byte, payload: Bytes, code: byte, rest: Bytes, outCap: nat)
    requires Positive(service) !in echo && NEGATIVE_RESPONSE !in echo && Positive(service) != NEGATIVE_RESPONSE
    ensures var raw := echo + ReplyFrame(Rejection(service, code)) + rest;
            && Tolerant(raw, service, payload) == Err(NegativeResponse(service, code))
            && F.Reply(raw, service, payload, outCap) == None
  {
    hide Tolerant, Find, Checksum, PositiveAt;
    var rejection := Rejection(service, code);
    var head, tail := echo + [3 as byte], WithChecksum(rejection) + rest;
    var raw := echo + ReplyFrame(rejection) + rest;
    assert raw == head + tail;
    FindBehind(head, tail, [NEGATIVE_RESPONSE, service]);
    assert tail[0..2] == [NEGATIVE_RESPONSE, service];
    LeastOccurrence(tail, [NEGATIVE_RESPONSE, service], 0);
    TolerantAcceptsIff(raw, service, payload);
    assert forall i | 0 <= i <= |head| :: raw[i] != Positive(service);
    assert raw[|head| + 2] == tail[2] == code;
  }

  /** The tolerant reader and the firmware take a first responsePending for the last word, whatever follows it. */
  lemma PendingTakenAsFinal(echo: Bytes, service: byte, payload: Bytes, rest: Bytes, outCap: nat)
    requires Positive(service) !in echo && NEGATIVE_RESPONSE !in echo && Positive(service) != NEGATIVE_RESPONSE
    ensures var raw := echo + ReplyFrame(PendingReply(service)) + rest;
            && Tolerant(raw, service, payload) == Err(NegativeResponse(service, RESPONSE_PENDING))
            && F.Reply(raw, service, payload, outCap) == None
  {
    hide Tolerant, F.Reply, ReplyFrame;
    RejectionIsFinal(echo, service, payload, RESPONSE_PENDING, rest, outCap);
  }

  /** A burst of k responsePending frames and the reply, read by the two readers that look at bursts. */
  lemma BurstReadersDoNotWait(echo: Bytes, service: byte, payload: Bytes, k: nat, resp: Bytes, outCap: nat)
    requires Positive(service) !in echo && NEGATIVE_RESPONSE !in echo && Positive(service) != NEGATIVE_RESPONSE
    requires EchoesId(resp, service, payload) && |echo| <= F.REQ_SIZE && outCap >= |resp| - 1
    ensures var raw := echo + (Concat(PendingReplies(service, k)) + ReplyFrame(resp));
            && Tolerant(raw, service, payload)
               == (if k == 0 then Ok(WithChecksum(resp)[1..]) else Err(NegativeResponse(service, RESPONSE_PENDING)))
            && F.Reply(Truncate(raw, F.BURST_SIZE), service, payload, outCap) == if k == 0 then Some(resp[1..]) else None
  {
    hide F.Reply, EchoIsInnocent, Tolerant, Concat, PendingReplies, WithChecksum, Positive, ReplyFrame, Truncate;
    var reply, pending := ReplyFrame(resp), ReplyFrame(PendingReply(service));
    ReplyLength(resp);
    ReplyLength(PendingReply(service));
    var rest := ConcatPending(service, k);
    if k == 0 {
      assert echo + ([] + reply) == echo + reply + [];
      TruncateBehind(echo + reply, [], F.BURST_SIZE);
      assert Truncate(echo + reply + [], F.BURST_SIZE) == echo + reply by { TruncateNothing(F.BURST_SIZE - |echo + reply|); }
      CleanEchoIsInnocent(echo, echo + reply, service, payload[0]);
      TolerantReadsReply(echo, resp, service, payload);
      FirmwareReadsReply(echo, resp, service, payload, outCap);
    } else {
      var front, back := echo + pending, rest + reply;
      assert echo + (pending + rest + reply) == front + back;
      PendingTakenAsFinal(echo, service, payload, back, outCap);
      TruncateBehind(front, back, F.BURST_SIZE);
      PendingTakenAsFinal(echo, service, payload, Truncate(back, F.BURST_SIZE - |front|), outCap);
    }
  }

  lemma ReplyLength(resp: Bytes)
    requires 1 <= |resp| <= MAX_SHORT
    ensures |ReplyFrame(resp)| == |resp| + 2
  {
  }

  lemma TruncateNothing(n: nat)
    ensures Truncate<byte>([], n) == []
  {
  }

  /**
   After k responsePending frames and then the reply, the three readers part: the strict stack waits, up to
   its bound; the tolerant one reports a rejection and the firmware nothing as soon as there is one of them.
   */
  lemma OnlyStrictWaits(w: Wire, link: Link, service: byte, payload: Bytes, retries: nat, k: nat, resp: Bytes, outCap: nat)
    requires !link.addressed && link.echo && Positive(service) != NEGATIVE_RESPONSE
    requires EchoesId(resp, service, payload) && |payload| + 3 <= F.REQ_SIZE && outCap >= |resp| - 1
    requires var echo := F.RequestBytes(service, payload);
             && Positive(service) !in echo && NEGATIVE_RESPONSE !in echo && w.replies != []
             && K.Delivers([], w.replies[0], [echo] + PendingReplies(service, k) + [ReplyFrame(resp)])
             && K.BurstRead(w.replies[0], false).bytes
                == echo + (Concat(PendingReplies(service, k)) + ReplyFrame(resp))
    ensures var burst := Truncate(K.BurstRead(w.replies[0], false).bytes, F.BURST_SIZE);
            && (Request(w, link.(tolerant := false), service, payload, retries).result == Ok(resp[1..])
                <==> k <= link.maxPending)
            && Request(w, link.(tolerant := true), service, payload, retries).result
               == (if k == 0 then Ok(WithChecksum(resp)[1..]) else Err(NegativeResponse(service, RESPONSE_PENDING)))
            && F.Reply(burst, service, payload, outCap) == if k == 0 then Some(resp[1..]) else None
  {
    hide Request, F.Reply, Encoded, K.Delivers, K.BurstRead, Tolerant, Concat, PendingReplies, WithChecksum, Positive,
         ReplyFrame, Truncate;
    var echo := F.RequestBytes(service, payload);
    FirmwareSendsTheSameFrame(service, payload, link.(tolerant := false));
    FirmwareSendsTheSameFrame(service, payload, link.(tolerant := true));
    StrictReadsReply(w, link.(tolerant := false), service, payload, retries, k, resp);
    TolerantRequestHears(w, link.(tolerant := true), service, payload, retries);
    BurstReadersDoNotWait(echo, service, payload, k, resp, outCap);
  }

  lemma ConcatPending(service: byte, k: nat) returns (rest: Bytes)
    ensures Concat(PendingReplies(service, k)) == if k == 0 then [] else ReplyFrame(PendingReply(service)) + rest
  {
    rest := if k == 0 then [] else Concat(PendingReplies(service, k)[1..]);
  }

  // ---- hearing only oneself -------------------------------------------- //

  /**
   Hearing only the echo, the tolerant reader takes it for an answer exactly if the echo holds the positive
   SID and no rejection of the service begins in front of the place the search finds.
   */
  lemma EchoAloneAnswersIff(echo: Bytes, service: byte, payload: Bytes)
    ensures Tolerant(echo, service, payload).Ok?
       <==> Positive(service) != NEGATIVE_RESPONSE && Positive(service) in echo
            && !RejectedBefore(echo, service, PositiveAt(echo, service, payload))
  {
    hide Tolerant, PositiveAt, Find;
    TolerantAcceptsIff(echo, service, payload);
    SearchPrefersPair(echo, service, payload);
    RejectionIsFound(echo, service, PositiveAt(echo, service, payload));
  }

  /** What the caller can see before sending: the service, the payload or the checksum is the positive SID. */
  predicate HoldsOwnAnswer(service: byte, payload: Bytes)
    requires |payload| < 0xFF
  {
    var sid := Positive(service);
    sid != NEGATIVE_RESPONSE
    && (service == sid || sid in payload || Checksum([(1 + |payload|) as byte, service] + payload) == sid)
  }

  /** The condition on the request itself; a payload without 0x7F cannot hold a rejection. */
  lemma RequestAnswersItselfIff(service: byte, payload: Bytes)
    requires |payload| < MAX_SHORT
    ensures var echo := F.RequestBytes(service, payload);
            && (Tolerant(echo, service, payload).Ok? <==>
                  HoldsOwnAnswer(service, payload)
                  && !RejectedBefore(echo, service, PositiveAt(echo, service, payload)))
            && (NEGATIVE_RESPONSE !in payload ==>
                  (Tolerant(echo, service, payload).Ok? <==> HoldsOwnAnswer(service, payload)))
  {
    hide Tolerant, PositiveAt, Find, Checksum;
    var echo := F.RequestBytes(service, payload);
    var body := [(1 + |payload|) as byte, service] + payload;
    EchoAloneAnswersIff(echo, service, payload);
    var sid := Positive(service);
    assert sid in echo <==> sid in body || sid == Checksum(body);
    if NEGATIVE_RESPONSE !in payload && HoldsOwnAnswer(service, payload) {
      assert NEGATIVE_RESPONSE !in body;
      PairNotIn(echo, NEGATIVE_RESPONSE, service);
      RejectionIsFound(echo, service, PositiveAt(echo, service, payload));
    }
  }

  lemma PairNotIn(s: Bytes, a: byte, b: byte)
    requires forall i | 0 <= i < |s| - 1 :: s[i] != a
    ensures Find(s, [a, b]) == -1
  {
    forall j | 0 <= j <= |s| ensures !OccursAt(s, [a, b], j) {
      assert j + 2 <= |s| ==> s[j..j + 2][0] == s[j];
    }
  }

  /** An echo that only its checksum makes end in the positive SID reads as an empty answer. */
  lemma EchoMistakenForAnswer(body: Bytes, service: byte, payload: Bytes)
    requires Positive(service) != NEGATIVE_RESPONSE
    requires Checksum(body) == Positive(service)
    requires Positive(service) !in body && NEGATIVE_RESPONSE !in body
    ensures Tolerant(body + [Checksum(body)], service, payload) == Ok([])
  {
    hide Checksum;
    var echo := body + [Checksum(body)];
    PairNotIn(echo, NEGATIVE_RESPONSE, service);
    if payload != [] {
      PairNotIn(echo, Positive(service), payload[0]);
    }
    K.FirstByte(echo, Positive(service));
    assert echo[|body|] == Positive(service);
    assert echo[|body|..][1..] == [];
  }

  /** The request `21 3E` is of this kind. */
  lemma ReadOf3EIsMistaken(link: Link)
    requires !link.addressed
    ensures Encoded(link, 0x21, [0x3E]).Ok?
    ensures Tolerant(Encoded(link, 0x21, [0x3E]).value, 0x21, [0x3E]) == Ok([])
  {
    hide Encode, Tolerant;
    FirmwareSendsTheSameFrame(0x21, [0x3E], link);
    var body: Bytes := [0x02, 0x21] + [0x3E];
    SumConcat([0x02, 0x21], [0x3E]);
    assert [0x02] + [0x21] == [0x02, 0x21] && Sum([0x21]) == 0x21;
    assert F.RequestBytes(0x21, [0x3E]) == body + [Checksum(body)];
    EchoMistakenForAnswer(body, 0x21, [0x3E]);
  }
}
