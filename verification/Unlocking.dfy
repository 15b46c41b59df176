/** The follow-up of the Td5's establishment: diagnostic session, seed, key, decided from the bytes heard. */
module Unlocking {
  import opened Wrappers
  import opened ByteStrings
  import opened Bus
  import opened Modular
  import opened Session
  import K = KLine
  import P = Kwp2000
  import Readers

  type KeyFunction = (byte, byte) -> (byte, byte)

  function KeyFrame(k: (byte, byte)): Bytes {
    Readers.F.RequestBytes(SECURITY_ACCESS, [2, k.0, k.1])
  }

  // ---- the whole step from the three bursts ---------------------------- //

  predicate SessionAccepted(heard: Bytes) {
    Readers.Tolerant(heard, START_DIAGNOSTIC_SESSION, [TD5_SESSION]).Ok?
  }

  /** The seed in a burst: what follows the level byte of a positive reply, if that is two bytes or more. */
  function SeedIn(heard: Bytes): Option<(byte, byte)> {
    match Readers.Tolerant(heard, SECURITY_ACCESS, [1])
    case Ok(v) => if |v| >= 3 then Some((v[1], v[2])) else None
    case Err(_) => None
  }

  predicate KeyAccepted(heard: Bytes, k: (byte, byte)) {
    Readers.Tolerant(heard, SECURITY_ACCESS, [2, k.0, k.1]).Ok?
  }

  /** The bursts heard after the next three transmissions. */
  function HeardAt(replies: seq<seq<Rx>>, i: nat): Bytes {
    Heard(K.ReplyTo(replies, i))
  }

  /**
   Unlocking on a tolerant link, from the bytes heard: it stops at the first request that is not answered
   positively and then fails; the key sent is the one computed from the seed heard; it succeeds exactly if
   all three requests are answered positively, the second with a seed.
   */
  lemma UnlockByHeard(e: Env, link: P.Link, key: KeyFunction)
    requires link.tolerant && !link.addressed && e.arrivals == []
    ensures var (unlocked, e') := Connect(e, link, key);
            var seed := SeedIn(HeardAt(e.wire.replies, 1));
            if !SessionAccepted(HeardAt(e.wire.replies, 0)) then
              !unlocked && e'.wire.log == e.wire.log + [Sent(SESSION_FRAME)]
            else if seed.None? then
              !unlocked && e'.wire.log == e.wire.log + [Sent(SESSION_FRAME), Sent(SEED_FRAME)]
            else
              var k := key(seed.value.0, seed.value.1);
              && (unlocked <==> KeyAccepted(HeardAt(e.wire.replies, 2), k))
              && e'.wire.log == e.wire.log + [Sent(SESSION_FRAME), Sent(SEED_FRAME), Sent(KeyFrame(k))]
  {
    hide Call, P.Encoded, K.BurstRead, Readers.Tolerant, Readers.F.RequestBytes;
    FixedFrames(link);
    TolerantCall(e, link, START_DIAGNOSTIC_SESSION, [TD5_SESSION], SESSION_FRAME);
    var (session, e1) := Call(e, link, START_DIAGNOSTIC_SESSION, [TD5_SESSION], 2);
    if session.Ok? {
      TolerantCall(e1, link, SECURITY_ACCESS, [1], SEED_FRAME);
      assert K.ReplyTo(e1.wire.replies, 0) == K.ReplyTo(e.wire.replies, 1);
      var (seed, e2) := Call(e1, link, SECURITY_ACCESS, [1], 2);
      if seed.Ok? && |seed.value| >= 3 {
        var k := key(seed.value[1], seed.value[2]);
        Readers.FirmwareSendsTheSameFrame(SECURITY_ACCESS, [2, k.0, k.1], link);
        TolerantCall(e2, link, SECURITY_ACCESS, [2, k.0, k.1], KeyFrame(k));
        assert K.ReplyTo(e2.wire.replies, 0) == K.ReplyTo(e.wire.replies, 2);
      }
    }
  }

  /** On any link, and with commands arriving meanwhile: success means that a key followed a seed that was read. */
  lemma UnlockedMeansKeySent(e: Env, link: P.Link, key: KeyFunction)
    returns (seed: Bytes, n: (nat, nat, nat), session: Bytes, request: Bytes, answer: Bytes)
    requires Connect(e, link, key).0
    ensures |seed| >= 3 && 1 <= n.0 <= 3 && 1 <= n.1 <= 3 && 1 <= n.2 <= 3
    ensures P.Encoded(link, START_DIAGNOSTIC_SESSION, [TD5_SESSION]) == Ok(session)
    ensures P.Encoded(link, SECURITY_ACCESS, [1]) == Ok(request)
    ensures var k := key(seed[1], seed[2]);
            P.Encoded(link, SECURITY_ACCESS, [2, k.0, k.1]) == Ok(answer)
    ensures Own(Connect(e, link, key).1.wire.log)
         == Own(e.wire.log) + K.Repeat(Sent(session), n.0) + K.Repeat(Sent(request), n.1) + K.Repeat(Sent(answer), n.2)
  {
    hide Call, P.Encoded, Own;
    var n0 := CallSends(e, link, START_DIAGNOSTIC_SESSION, [TD5_SESSION], 2);
    session := P.Encoded(link, START_DIAGNOSTIC_SESSION, [TD5_SESSION]).value;
    var e1 := Call(e, link, START_DIAGNOSTIC_SESSION, [TD5_SESSION], 2).1;
    var n1 := CallSends(e1, link, SECURITY_ACCESS, [1], 2);
    request := P.Encoded(link, SECURITY_ACCESS, [1]).value;
    var (read, e2) := Call(e1, link, SECURITY_ACCESS, [1], 2);
    seed := read.value;
    var k := key(seed[1], seed[2]);
    var n2 := CallSends(e2, link, SECURITY_ACCESS, [2, k.0, k.1], 2);
    answer := P.Encoded(link, SECURITY_ACCESS, [2, k.0, k.1]).value;
    n := (n0, n1, n2);
  }

  // ---- the key's own echo ---------------------------------------------- //

  lemma KeyFrameBytes(k: (byte, byte))
    ensures KeyFrame(k) == [4, SECURITY_ACCESS, 2, k.0, k.1, (0x2D + k.0 + k.1) % 256]
  {
    SumConcat([4], [SECURITY_ACCESS, 2, k.0, k.1]);
    SumOfFour(SECURITY_ACCESS, 2, k.0, k.1);
    assert [4, SECURITY_ACCESS] + [2, k.0, k.1] == [4] + [SECURITY_ACCESS, 2, k.0, k.1];
    assert [4, SECURITY_ACCESS] + [2, k.0, k.1] == [4, SECURITY_ACCESS, 2, k.0, k.1];
  }

  lemma PairAt(s: Bytes, a: byte, b: byte, i: int)
    ensures OccursAt(s, [a, b], i) <==> 0 <= i < |s| - 1 && s[i] == a && s[i + 1] == b
  {
    if 0 <= i < |s| - 1 {
      assert s[i..i + 2] == [s[i], s[i + 1]];
    }
  }

  /** The keys whose own frame, echoed, reads as a rejection of SecurityAccess. */
  predicate KeyReadsAsRejection(k: (byte, byte)) {
    k == (0x7F, 0x27) || k == (0x7B, 0x7F)
  }

  /** What is heard after the key: its echo and `67 02`. */
  lemma KeyBurst(k: (byte, byte)) returns (raw: Bytes)
    ensures raw == KeyFrame(k) + Readers.ReplyFrame([0x67, 0x02])
    ensures raw == [4, SECURITY_ACCESS, 2, k.0, k.1, (0x2D + k.0 + k.1) % 256, 2, 0x67, 2, 0x6B]
  {
    hide Readers.F.RequestBytes;
    KeyFrameBytes(k);
    SumOfThree(2, 0x67, 2);
    assert [2] + [0x67, 0x02] == [2, 0x67, 2];
    assert Readers.ReplyFrame([0x67, 0x02]) == [2, 0x67, 2, 0x6B];
    raw := KeyFrame(k) + Readers.ReplyFrame([0x67, 0x02]);
  }

  lemma RejectionInKeyBurst(raw: Bytes, k: (byte, byte), i: int)
    requires raw == [4, SECURITY_ACCESS, 2, k.0, k.1, (0x2D + k.0 + k.1) % 256, 2, 0x67, 2, 0x6B]
    ensures OccursAt(raw, [P.NEGATIVE_RESPONSE, SECURITY_ACCESS], i)
       <==> (i == 3 && k == (0x7F, 0x27)) || (i == 4 && k == (0x7B, 0x7F))
  {
    PairAt(raw, P.NEGATIVE_RESPONSE, SECURITY_ACCESS, i);
  }

  lemma AnswerInKeyBurst(raw: Bytes, k: (byte, byte), i: int)
    requires raw == [4, SECURITY_ACCESS, 2, k.0, k.1, (0x2D + k.0 + k.1) % 256, 2, 0x67, 2, 0x6B]
    ensures OccursAt(raw, [0x67, 2], i) && KeyReadsAsRejection(k) ==> i == 7
    ensures OccursAt(raw, [0x67, 2], 7)
  {
    PairAt(raw, 0x67, 2, i);
    PairAt(raw, 0x67, 2, 7);
  }

  /** Behind the echo of the key the tolerant reader accepts `67 02` for every key but those. */
  lemma KeyReplyAcceptedIff(k: (byte, byte))
    ensures Readers.Tolerant(KeyFrame(k) + Readers.ReplyFrame([0x67, 0x02]), SECURITY_ACCESS, [2, k.0, k.1]).Ok?
       <==> !KeyReadsAsRejection(k)
  {
    hide Readers.Tolerant, P.PositiveAt, Find, Readers.F.RequestBytes, Readers.ReplyFrame, OccursAt;
    var raw := KeyBurst(k);
    var payload: Bytes := [2, k.0, k.1];
    Readers.TolerantAcceptsIff(raw, SECURITY_ACCESS, payload);
    P.SearchPrefersPair(raw, SECURITY_ACCESS, payload);
    var neg, pos := Find(raw, [P.NEGATIVE_RESPONSE, SECURITY_ACCESS]), P.PositiveAt(raw, SECURITY_ACCESS, payload);
    AnswerInKeyBurst(raw, k, pos);
    RejectionInKeyBurst(raw, k, neg);
    RejectionInKeyBurst(raw, k, 3);
    RejectionInKeyBurst(raw, k, 4);
    assert P.Positive(SECURITY_ACCESS) == 0x67;
  }

  /**
   An undamaged unlocking: session, seed, and the key computed from exactly the seed that was heard, in
   three frames. It succeeds for every key but the two whose own echo reads as a rejection.
   */
  lemma UnlockAnswersSeedWithKey(e: Env, link: P.Link, key: KeyFunction, s0: byte, s1: byte)
    requires link.tolerant && !link.addressed && e.arrivals == []
    requires HeardAt(e.wire.replies, 0) == SESSION_FRAME + Readers.ReplyFrame([0x50])
    requires HeardAt(e.wire.replies, 1) == SEED_FRAME + Readers.ReplyFrame([0x67, 0x01, s0, s1])
    requires HeardAt(e.wire.replies, 2) == KeyFrame(key(s0, s1)) + Readers.ReplyFrame([0x67, 0x02])
    ensures var (unlocked, e') := Connect(e, link, key);
            && (unlocked <==> !KeyReadsAsRejection(key(s0, s1)))
            && e'.wire.log == e.wire.log + [Sent(SESSION_FRAME), Sent(SEED_FRAME), Sent(KeyFrame(key(s0, s1)))]
  {
    hide Connect, HeardAt, Readers.Tolerant, Readers.EchoIsInnocent, Readers.F.RequestBytes, Readers.ReplyFrame;
    hide KeyReadsAsRejection;
    Readers.TolerantReadsBareReply(SESSION_FRAME, START_DIAGNOSTIC_SESSION, [TD5_SESSION]);
    var seedReply: Bytes := [0x67, 0x01, s0, s1];
    Readers.CleanEchoIsInnocent(SEED_FRAME, SEED_FRAME + Readers.ReplyFrame(seedReply), SECURITY_ACCESS, 1);
    Readers.TolerantReadsReply(SEED_FRAME, seedReply, SECURITY_ACCESS, [1]);
    assert Readers.WithChecksum(seedReply)[1..][1] == s0 && Readers.WithChecksum(seedReply)[1..][2] == s1;
    KeyReplyAcceptedIff(key(s0, s1));
    UnlockByHeard(e, link, key);
  }

  // ---- no answer, or a rejection --------------------------------------- //

  /** Silence, the echo alone, or the echo and a rejection. */
  ghost predicate Unanswered(heard: Bytes, frame: Bytes, service: byte) {
    heard == [] || heard == frame
    || exists code: byte :: heard == frame + Readers.ReplyFrame(Readers.Rejection(service, code))
  }

  /** The key's frame holds 0x67, the answer the tolerant reader looks for. */
  predicate KeyHoldsAnswer(k: (byte, byte)) {
    k.0 == 0x67 || k.1 == 0x67 || (0x2D + k.0 + k.1) % 256 == 0x67
  }

  /** A request whose frame holds neither SID fails if it is not answered. */
  lemma UnansweredIsRefused(heard: Bytes, frame: Bytes, service: byte, payload: Bytes)
    requires P.Positive(service) !in frame && P.NEGATIVE_RESPONSE !in frame && P.Positive(service) != P.NEGATIVE_RESPONSE
    requires Unanswered(heard, frame, service)
    ensures Readers.Tolerant(heard, service, payload).Err?
  {
    hide Readers.Tolerant, Readers.ReplyFrame;
    if heard == [] || heard == frame {
      Readers.EchoAloneAnswersIff(heard, service, payload);
    } else {
      var code: byte :| heard == frame + Readers.ReplyFrame(Readers.Rejection(service, code));
      assert heard == heard + [];
      Readers.RejectionIsFinal(frame, service, payload, code, [], 0);
    }
  }

  lemma RejectedKeyBurst(k: (byte, byte), code: byte) returns (raw: Bytes)
    ensures raw == KeyFrame(k) + Readers.ReplyFrame(Readers.Rejection(SECURITY_ACCESS, code))
    ensures raw == [4, SECURITY_ACCESS, 2, k.0, k.1, (0x2D + k.0 + k.1) % 256,
                    3, P.NEGATIVE_RESPONSE, SECURITY_ACCESS, code, (0xA9 + code) % 256]
  {
    hide Readers.F.RequestBytes;
    KeyFrameBytes(k);
    SumOfFour(3, P.NEGATIVE_RESPONSE, SECURITY_ACCESS, code);
    assert [3] + [P.NEGATIVE_RESPONSE, SECURITY_ACCESS, code] == [3, P.NEGATIVE_RESPONSE, SECURITY_ACCESS, code];
    assert Readers.ReplyFrame(Readers.Rejection(SECURITY_ACCESS, code))
        == [3, P.NEGATIVE_RESPONSE, SECURITY_ACCESS, code, (0xA9 + code) % 256];
    raw := KeyFrame(k) + Readers.ReplyFrame(Readers.Rejection(SECURITY_ACCESS, code));
  }

  /** The echo of the key, alone or with a rejection behind it. */
  predicate KeyAndRejection(raw: Bytes, k: (byte, byte)) {
    && (|raw| == 6 || |raw| == 11)
    && raw[0] == 4 && raw[1] == SECURITY_ACCESS && raw[2] == 2 && raw[3] == k.0 && raw[4] == k.1
    && raw[5] == (0x2D + k.0 + k.1) % 256
    && (|raw| == 11 ==> raw[6] == 3 && raw[7] == P.NEGATIVE_RESPONSE && raw[8] == SECURITY_ACCESS
                        && raw[10] as int == (0xA9 + raw[9] as int) % 256)
  }

  lemma RejectionsAround(raw: Bytes, k: (byte, byte), i: int)
    requires KeyAndRejection(raw, k) && KeyHoldsAnswer(k)
    ensures OccursAt(raw, [P.NEGATIVE_RESPONSE, SECURITY_ACCESS], i) ==> i == 7
  {
    PairAt(raw, P.NEGATIVE_RESPONSE, SECURITY_ACCESS, i);
  }

  lemma AnswersAround(raw: Bytes, k: (byte, byte), i: int)
    requires KeyAndRejection(raw, k)
    ensures OccursAt(raw, [0x67, 2], i) ==> i <= 4 && KeyHoldsAnswer(k)
  {
    PairAt(raw, 0x67, 2, i);
  }

  /** The search finds something in the key's frame exactly if that holds 0x67. */
  lemma SearchInKeyFrame(raw: Bytes, k: (byte, byte))
    requires KeyAndRejection(raw, k)
    ensures var pos := P.PositiveAt(raw, SECURITY_ACCESS, [2, k.0, k.1]);
            if KeyHoldsAnswer(k) then 0 <= pos <= 5 else pos < 0 || pos >= 9
  {
    hide P.PositiveAt, OccursAt, Find;
    var payload: Bytes := [2, k.0, k.1];
    var pos := P.PositiveAt(raw, SECURITY_ACCESS, payload);
    assert P.Positive(SECURITY_ACCESS) == 0x67;
    P.SearchPrefersPair(raw, SECURITY_ACCESS, payload);
    AnswersAround(raw, k, pos);
    if KeyHoldsAnswer(k) && !OccursAt(raw, [0x67, 2], pos) {
      var at := if k.0 == 0x67 then 3 else if k.1 == 0x67 then 4 else 5;
      assert raw[at] == 0x67;
      InFront(raw, at, pos);
    }
  }

  lemma InFront(raw: Bytes, at: nat, pos: int)
    ensures at < pos <= |raw| ==> raw[at] in raw[..pos]
  {
    if at < pos <= |raw| {
      assert raw[..pos][at] == raw[at];
    }
  }

  /**
   Heard with nothing behind it, or with a rejection behind it, a key passes for accepted exactly if its own
   frame holds 0x67.
   */
  lemma KeyAcceptedIffHeld(raw: Bytes, k: (byte, byte))
    requires KeyAndRejection(raw, k)
    ensures KeyAccepted(raw, k) <==> KeyHoldsAnswer(k)
  {
    hide Readers.Tolerant, P.PositiveAt, OccursAt, Find, KeyHoldsAnswer;
    Readers.TolerantAcceptsIff(raw, SECURITY_ACCESS, [2, k.0, k.1]);
    SearchInKeyFrame(raw, k);
    var neg := Find(raw, [P.NEGATIVE_RESPONSE, SECURITY_ACCESS]);
    assert P.Positive(SECURITY_ACCESS) == 0x67;
    if KeyHoldsAnswer(k) {
      RejectionsAround(raw, k, neg);
    } else if |raw| == 11 {
      PairAt(raw, P.NEGATIVE_RESPONSE, SECURITY_ACCESS, 7);
      assert 0 <= neg <= 7;
    }
  }

  lemma UnansweredKeyAcceptedIff(heard: Bytes, k: (byte, byte))
    requires Unanswered(heard, KeyFrame(k), SECURITY_ACCESS)
    ensures KeyAccepted(heard, k) <==> heard != [] && KeyHoldsAnswer(k)
  {
    hide KeyHoldsAnswer, Readers.Tolerant, Readers.ReplyFrame, Readers.F.RequestBytes;
    if heard == [] {
      Readers.EchoAloneAnswersIff([], SECURITY_ACCESS, [2, k.0, k.1]);
    } else if heard == KeyFrame(k) {
      KeyFrameBytes(k);
      KeyAcceptedIffHeld(heard, k);
    } else {
      var code: byte :| heard == KeyFrame(k) + Readers.ReplyFrame(Readers.Rejection(SECURITY_ACCESS, code));
      var raw := RejectedKeyBurst(k, code);
      KeyAcceptedIffHeld(raw, k);
    }
  }

  /**
   If one of the three requests is not answered - silence, the echo alone, or the echo and a rejection - the
   unlocking fails there and sends nothing further; but a key whose frame holds 0x67 is taken for accepted
   even then, and exactly such keys are.
   */
  lemma UnansweredUnlockFails(e: Env, link: P.Link, key: KeyFunction)
    requires link.tolerant && !link.addressed && e.arrivals == []
    ensures var (unlocked, e') := Connect(e, link, key);
            var h, seed := i => HeardAt(e.wire.replies, i), SeedIn(HeardAt(e.wire.replies, 1));
            && (Unanswered(h(0), SESSION_FRAME, START_DIAGNOSTIC_SESSION) ==>
                  !unlocked && e'.wire.log == e.wire.log + [Sent(SESSION_FRAME)])
            && (SessionAccepted(h(0)) && Unanswered(h(1), SEED_FRAME, SECURITY_ACCESS) ==>
                  !unlocked && e'.wire.log == e.wire.log + [Sent(SESSION_FRAME), Sent(SEED_FRAME)])
            && (SessionAccepted(h(0)) && seed.Some? ==>
                  var k := key(seed.value.0, seed.value.1);
                  Unanswered(h(2), KeyFrame(k), SECURITY_ACCESS) ==>
                    (unlocked <==> h(2) != [] && KeyHoldsAnswer(k)))
  {
    hide Connect, HeardAt, Unanswered, Readers.Tolerant, KeyHoldsAnswer, Readers.F.RequestBytes;
    UnlockByHeard(e, link, key);
    var h0, h1, h2 := HeardAt(e.wire.replies, 0), HeardAt(e.wire.replies, 1), HeardAt(e.wire.replies, 2);
    if Unanswered(h0, SESSION_FRAME, START_DIAGNOSTIC_SESSION) {
      UnansweredIsRefused(h0, SESSION_FRAME, START_DIAGNOSTIC_SESSION, [TD5_SESSION]);
    }
    if Unanswered(h1, SEED_FRAME, SECURITY_ACCESS) {
      UnansweredIsRefused(h1, SEED_FRAME, SECURITY_ACCESS, [1]);
    }
    var seed := SeedIn(h1);
    if seed.Some? && Unanswered(h2, KeyFrame(key(seed.value.0, seed.value.1)), SECURITY_ACCESS) {
      UnansweredKeyAcceptedIff(h2, key(seed.value.0, seed.value.1));
    }
  }

  // ---- one attempt of the establishment -------------------------------- //

  /** The three bursts unlock. */
  predicate UnlockHeard(replies: seq<seq<Rx>>, key: KeyFunction) {
    var seed := SeedIn(HeardAt(replies, 1));
    SessionAccepted(HeardAt(replies, 0)) && seed.Some?
    && KeyAccepted(HeardAt(replies, 2), key(seed.value.0, seed.value.1))
  }

  /**
   An attempt with an unlocking step, from the four bursts heard: it succeeds exactly if the unlocking does,
   whether or not the init was answered, and returns the init's answer, or nothing if there was none.
   */
  lemma AttemptByHeard(e: Env, plan: Plan, i: nat)
    requires plan.variants != [] && plan.after.Unlock? && plan.link.tolerant && !plan.link.addressed
    requires e.arrivals == []
    ensures var answer := K.AnswerInBurst(HeardAt(e.wire.replies, 0), plan.InitAt(i), plan.VariantAt(i).functional);
            TryOnce(e, plan, i).0
            == if !UnlockHeard(K.Rest(e.wire.replies), plan.after.key) then None
               else if answer.Ok? then Some(answer.value) else Some([])
  {
    hide Connect, K.BurstRead, K.AnswerInBurst, K.InitFrame, K.Converse, Readers.Tolerant, SeedIn, SessionAccepted, KeyAccepted;
    ConverseHears(e.wire, plan.InitAt(i));
    var started := StartCommunication(e, plan, i).1;
    assert started.wire.replies == K.Rest(e.wire.replies);
    UnlockByHeard(started, plan.link, plan.after.key);
  }

  /** Attempts take the variants in turn, in list order: attempt `m` of every round uses variant `m`. */
  lemma VariantsTakeTurns(plan: Plan, round: nat, m: nat)
    requires m < |plan.variants|
    ensures var i := |plan.variants| * round + m;
            && plan.VariantAt(i) == plan.variants[m]
            && plan.InitAt(i) == match plan.variants[m]
                 case Variant(functional, Some(source)) => K.InitFrame(plan.link.target, source, functional)
                 case Variant(functional, None) => K.InitFrame(plan.link.target, plan.link.source, functional)
  {
    hide K.InitFrame;
    RemainderIs(round, m, |plan.variants|);
  }
}
