/** Splitting captured traffic into length-prefixed frames, with and without looking at the checksums. */
module Splitter {
  import opened Wrappers
  import opened ByteStrings
  import Frame

  /** The frames cut off the front of a byte list and how far that went. */
  datatype Cut = Cut(frames: seq<Bytes>, consumed: nat)

  function Split(b: Bytes, verify: bool): (c: Cut)
    ensures c.consumed <= |b|
  {
    if b == [] then Cut([], 0)
    else if b[0] == 0 then
      var rest := Split(b[1..], verify);
      Cut(rest.frames, rest.consumed + 1)
    else
      var n: nat := b[0];
      if n + 2 > |b| || (verify && Checksum(b[..n + 1]) != b[n + 1]) then Cut([], 0)
      else
        var rest := Split(b[n + 2..], verify);
        Cut([b[..n + 2]] + rest.frames, rest.consumed + n + 2)
  }

  /** One step of the walk, at index `i` of the whole list. */
  lemma SplitStep(b: Bytes, i: nat, verify: bool)
    requires i < |b|
    ensures var n: nat := b[i];
            Split(b[i..], verify) ==
            if n == 0 then
              Cut(Split(b[i + 1..], verify).frames, Split(b[i + 1..], verify).consumed + 1)
            else if i + n + 2 > |b| || (verify && Checksum(b[i..i + n + 1]) != b[i + n + 1]) then Cut([], 0)
            else Cut([b[i..i + n + 2]] + Split(b[i + n + 2..], verify).frames,
                     Split(b[i + n + 2..], verify).consumed + n + 2)
  {
    hide Checksum;
    var tail := b[i..];
    var n: nat := b[i];
    assert tail != [] && tail[0] == n && |tail| == |b| - i;
    if n == 0 {
      assert tail[1..] == b[i + 1..];
    } else if i + n + 2 <= |b| {
      SlicesAt(b, i, n);
    }
  }

  lemma SlicesAt(b: Bytes, i: nat, n: nat)
    requires i + n + 2 <= |b|
    ensures b[i..][..n + 1] == b[i..i + n + 1] && b[i..][n + 1] == b[i + n + 1]
    ensures b[i..][..n + 2] == b[i..i + n + 2] && b[i..][n + 2..] == b[i + n + 2..]
  {
  }

  /** `capture.split_frames`: stop at the first broken frame. */
  method SplitFrames(b: Bytes) returns (frames: seq<Bytes>, consumed: nat)
    ensures Cut(frames, consumed) == Split(b, true)
  {
    hide Split, Checksum;
    frames, consumed := [], 0;
    assert b[0..] == b;
    while consumed < |b|
      invariant consumed <= |b|
      invariant frames + Split(b[consumed..], true).frames == Split(b, true).frames
      invariant consumed + Split(b[consumed..], true).consumed == Split(b, true).consumed
    {
      SplitStep(b, consumed, true);
      var n: nat := b[consumed];
      if n == 0 {
        consumed := consumed + 1;
        continue;
      }
      assert frames + [] == frames;
      if consumed + n + 2 > |b| {
        return;
      }
      var frame := b[consumed..consumed + n + 2];
      assert frame[..n + 1] == b[consumed..consumed + n + 1];
      if Checksum(frame[..n + 1]) != frame[n + 1] {
        return;
      }
      ghost var rest := Split(b[consumed + n + 2..], true).frames;
      assert frames + ([frame] + rest) == frames + [frame] + rest;
      frames := frames + [frame];
      consumed := consumed + n + 2;
    }
    EmptySplit(true);
    assert frames + [] == frames && b[|b|..] == [];
  }

  /** `decoder._frames`: the same walk without the checksum. */
  method Frames(b: Bytes) returns (frames: seq<Bytes>)
    ensures frames == Split(b, false).frames
  {
    hide Split, Checksum;
    frames := [];
    var i := 0;
    assert b[0..] == b;
    while i < |b|
      invariant i <= |b|
      invariant frames + Split(b[i..], false).frames == Split(b, false).frames
    {
      SplitStep(b, i, false);
      var n: nat := b[i];
      if n == 0 {
        i := i + 1;
        continue;
      }
      assert frames + [] == frames;
      if i + n + 2 > |b| {
        return;
      }
      var frame := b[i..i + n + 2];
      ghost var rest := Split(b[i + n + 2..], false).frames;
      assert frames + ([frame] + rest) == frames + [frame] + rest;
      frames := frames + [frame];
      i := i + n + 2;
    }
    EmptySplit(false);
    assert frames + [] == frames && b[|b|..] == [];
  }

  // ---- what the splitter recognises ------------------------------------ //

  function Zeros(n: nat): (z: Bytes)
    ensures |z| == n && forall i | 0 <= i < n :: z[i] == 0
  {
    seq(n, _ => 0)
  }

  function RawFrame(payload: Bytes): Bytes
    requires 1 <= |payload| <= 0xFF
  {
    var body := [|payload| as byte] + payload;
    body + [Checksum(body)]
  }

  predicate AllCarriable(payloads: seq<Bytes>) {
    forall i | 0 <= i < |payloads| :: Frame.Carriable(payloads[i], true)
  }

  function RawFrames(payloads: seq<Bytes>): seq<Bytes>
    requires AllCarriable(payloads)
  {
    seq(|payloads|, i requires 0 <= i < |payloads| => RawFrame(payloads[i]))
  }

  /** Frames separated, preceded and followed by runs of zeros. */
  function Weave(gaps: seq<nat>, payloads: seq<Bytes>): Bytes
    requires |gaps| == |payloads| + 1 && AllCarriable(payloads)
    decreases |payloads|
  {
    if payloads == [] then Zeros(gaps[0])
    else Zeros(gaps[0]) + (RawFrame(payloads[0]) + Weave(gaps[1..], payloads[1..]))
  }

  lemma {:induction false} ZerosAreSkipped(n: nat, b: Bytes, verify: bool)
    ensures Split(Zeros(n) + b, verify) == Cut(Split(b, verify).frames, Split(b, verify).consumed + n)
  {
    if n == 0 {
      assert Zeros(0) + b == b;
    } else {
      ZerosAreSkipped(n - 1, b, verify);
      assert (Zeros(n) + b)[1..] == Zeros(n - 1) + b;
    }
  }

  lemma FrameIsCut(payload: Bytes, b: Bytes, verify: bool)
    requires 1 <= |payload| <= 0xFF
    ensures Split(RawFrame(payload) + b, verify)
         == Cut([RawFrame(payload)] + Split(b, verify).frames, Split(b, verify).consumed + |payload| + 2)
  {
    hide Checksum;
    var f := RawFrame(payload);
    var all := f + b;
    var n := |payload|;
    assert all[..n + 2] == f && all[n + 2..] == b;
    assert all[..n + 1] == f[..n + 1] == [n as byte] + payload;
  }

  /** Any weaving of frames and zeros is split back into exactly those frames, to the last byte. */
  lemma {:induction false} SplitsWhatIsWoven(gaps: seq<nat>, payloads: seq<Bytes>, verify: bool)
    requires |gaps| == |payloads| + 1 && AllCarriable(payloads)
    ensures Split(Weave(gaps, payloads), verify) == Cut(RawFrames(payloads), |Weave(gaps, payloads)|)
    decreases |payloads|
  {
    hide Split, RawFrame;
    if payloads == [] {
      assert Zeros(gaps[0]) + [] == Zeros(gaps[0]);
      ZerosAreSkipped(gaps[0], [], verify);
      EmptySplit(verify);
    } else {
      var rest := Weave(gaps[1..], payloads[1..]);
      SplitsWhatIsWoven(gaps[1..], payloads[1..], verify);
      FrameIsCut(payloads[0], rest, verify);
      ZerosAreSkipped(gaps[0], RawFrame(payloads[0]) + rest, verify);
      RawLength(payloads[0]);
      assert RawFrames(payloads) == [RawFrame(payloads[0])] + RawFrames(payloads[1..]);
    }
  }

  lemma EmptySplit(verify: bool)
    ensures Split([], verify) == Cut([], 0)
  {
  }

  lemma RawLength(payload: Bytes)
    requires 1 <= |payload| <= 0xFF
    ensures |RawFrame(payload)| == |payload| + 2
  {
  }

  /** The checked splitter yields a prefix of what the unchecked one does. */
  lemma {:induction false} CheckedIsPrefixOfUnchecked(b: Bytes)
    ensures Split(b, true).frames <= Split(b, false).frames && Split(b, true).consumed <= Split(b, false).consumed
    decreases |b|
  {
    if b != [] && b[0] == 0 {
      CheckedIsPrefixOfUnchecked(b[1..]);
    } else if b != [] && Split(b, true).frames != [] {
      CheckedIsPrefixOfUnchecked(b[b[0] as nat + 2..]);
    }
  }

  // ---- any frames, checked or not -------------------------------------- //

  /** A frame begins here as the splitter sees it: its length byte, all its bytes, and if asked for its checksum. */
  predicate Starts(b: Bytes, verify: bool) {
    b != [] && b[0] > 0 && b[0] as nat + 2 <= |b|
    && (verify ==> Checksum(b[..b[0] as nat + 1]) == b[b[0] as nat + 1])
  }

  predicate WholeFrame(f: Bytes, verify: bool) {
    Starts(f, verify) && |f| == f[0] as nat + 2
  }

  /** Nothing more can be split off. */
  predicate Stuck(b: Bytes, verify: bool) {
    b == [] || (b[0] != 0 && !Starts(b, verify))
  }

  /** Frames with runs of zeros before, between and behind them. */
  function Laid(gaps: seq<nat>, frames: seq<Bytes>): Bytes
    requires |gaps| == |frames| + 1
    decreases |frames|
  {
    if frames == [] then Zeros(gaps[0]) else Zeros(gaps[0]) + (frames[0] + Laid(gaps[1..], frames[1..]))
  }

  lemma CutFront(f: Bytes, rest: Bytes, verify: bool)
    requires WholeFrame(f, verify)
    ensures Split(f + rest, verify) == Cut([f] + Split(rest, verify).frames, Split(rest, verify).consumed + |f|)
  {
    hide Checksum;
    var all, n := f + rest, f[0] as nat;
    assert all[..n + 2] == f && all[n + 2..] == rest && all[..n + 1] == f[..n + 1] && all[n + 1] == f[n + 1];
  }

  lemma SplitStuck(b: Bytes, verify: bool)
    requires Stuck(b, verify)
    ensures Split(b, verify) == Cut([], 0)
  {
    hide Checksum;
  }

  /**
   The splitter takes all the frames there are up to the first place where it is stuck: a frame cut short, or
   with checking one whose checksum is wrong. Without checking, the last byte of a frame may be anything.
   */
  lemma {:induction false} SplitOfLaid(gaps: seq<nat>, frames: seq<Bytes>, tail: Bytes, verify: bool)
    requires |gaps| == |frames| + 1 && (forall i | 0 <= i < |frames| :: WholeFrame(frames[i], verify))
    requires Stuck(tail, verify)
    ensures Split(Laid(gaps, frames) + tail, verify) == Cut(frames, |Laid(gaps, frames)|)
    decreases |frames|
  {
    hide Split, WholeFrame, Stuck, Zeros;
    if frames == [] {
      ZerosAreSkipped(gaps[0], tail, verify);
      SplitStuck(tail, verify);
      ZerosLength(gaps[0]);
    } else {
      var rest := Laid(gaps[1..], frames[1..]);
      SplitOfLaid(gaps[1..], frames[1..], tail, verify);
      CutFront(frames[0], rest + tail, verify);
      ZerosAreSkipped(gaps[0], frames[0] + (rest + tail), verify);
      ZerosLength(gaps[0]);
      assert Laid(gaps, frames) + tail == Zeros(gaps[0]) + (frames[0] + (rest + tail));
      assert [frames[0]] + frames[1..] == frames;
    }
  }

  lemma ZerosLength(n: nat)
    ensures |Zeros(n)| == n
  {
  }

  lemma SplitFront(b: Bytes, verify: bool)
    requires b != []
    ensures b[0] == 0 ==> Split(b, verify) == Cut(Split(b[1..], verify).frames, Split(b[1..], verify).consumed + 1)
    ensures Starts(b, verify) ==>
              var f := b[..b[0] as nat + 2];
              WholeFrame(f, verify) && b == f + b[|f|..]
  {
    hide Checksum;
    if Starts(b, verify) {
      var n := b[0] as nat;
      assert b[..n + 2][..n + 1] == b[..n + 1];
    }
  }

  /** What the splitter makes of `b` lies in it between these runs of zeros, up to a place where it is stuck. */
  ghost predicate SplitAsLaid(b: Bytes, verify: bool, gaps: seq<nat>) {
    var c := Split(b, verify);
    && |gaps| == |c.frames| + 1 && (forall i | 0 <= i < |c.frames| :: WholeFrame(c.frames[i], verify))
    && b == Laid(gaps, c.frames) + b[c.consumed..] && Stuck(b[c.consumed..], verify)
  }

  lemma StuckAsLaid(b: Bytes, verify: bool)
    requires Stuck(b, verify)
    ensures SplitAsLaid(b, verify, [0])
  {
    hide Split, Stuck;
    SplitStuck(b, verify);
    assert b[0..] == b && Zeros(0) == [];
  }

  lemma AfterZeroAsLaid(b: Bytes, verify: bool, rest: seq<nat>)
    requires b != [] && b[0] == 0 && SplitAsLaid(b[1..], verify, rest)
    ensures rest != [] && SplitAsLaid(b, verify, [rest[0] + 1] + rest[1..])
  {
    hide Split, Stuck, WholeFrame, Laid;
    SplitFront(b, verify);
    var c := Split(b[1..], verify);
    LaidWider(rest, c.frames);
    assert b == [0] + b[1..];
    assert b[1..][c.consumed..] == b[c.consumed + 1..];
  }

  lemma AfterFrameAsLaid(b: Bytes, verify: bool, f: Bytes, rest: seq<nat>)
    requires WholeFrame(f, verify) && f <= b && SplitAsLaid(b[|f|..], verify, rest)
    ensures SplitAsLaid(b, verify, [0] + rest)
  {
    hide Split, Stuck, WholeFrame, Laid;
    assert b == f + b[|f|..];
    CutFront(f, b[|f|..], verify);
    var c := Split(b[|f|..], verify);
    LaidInFront(rest, c.frames, f);
    assert b[|f|..][c.consumed..] == b[c.consumed + |f|..];
  }

  /** Conversely every byte string is of this kind: frames and zeros, and then a place where the splitter is stuck. */
  lemma {:induction false} SplitIsLaid(b: Bytes, verify: bool) returns (gaps: seq<nat>)
    ensures SplitAsLaid(b, verify, gaps)
    decreases |b|
  {
    hide Split, SplitAsLaid, WholeFrame;
    if Stuck(b, verify) {
      gaps := [0];
      StuckAsLaid(b, verify);
    } else {
      SplitFront(b, verify);
      if b[0] == 0 {
        gaps := SplitIsLaid(b[1..], verify);
        AfterZeroAsLaid(b, verify, gaps);
        gaps := [gaps[0] + 1] + gaps[1..];
      } else {
        var f := b[..b[0] as nat + 2];
        gaps := SplitIsLaid(b[|f|..], verify);
        AfterFrameAsLaid(b, verify, f, gaps);
        gaps := [0] + gaps;
      }
    }
  }

  lemma LaidWider(gaps: seq<nat>, frames: seq<Bytes>)
    requires |gaps| == |frames| + 1
    ensures Laid([gaps[0] + 1] + gaps[1..], frames) == [0] + Laid(gaps, frames)
  {
    assert Zeros(gaps[0] + 1) == [0] + Zeros(gaps[0]);
    assert ([gaps[0] + 1] + gaps[1..])[1..] == gaps[1..];
  }

  lemma LaidInFront(gaps: seq<nat>, frames: seq<Bytes>, f: Bytes)
    requires |gaps| == |frames| + 1
    ensures Laid([0] + gaps, [f] + frames) == f + Laid(gaps, frames)
  {
    assert ([0] + gaps)[1..] == gaps && ([f] + frames)[1..] == frames;
    assert Zeros(0) == [];
  }

  // ---- round trip with the encoder ------------------------------------- //

  function EncodeSession(payload: Bytes): Result<Bytes, Frame.FrameError> {
    Frame.Encode(payload, 0, 0, false, false)
  }

  /** A session frame is a raw frame, behind the zero of the long header if the payload is long. */
  lemma EncodedIsRaw(payload: Bytes)
    requires 1 <= |payload| <= 0xFF
    ensures EncodeSession(payload) == Ok(Zeros(if |payload| > Frame.MAX_SHORT then 1 else 0) + RawFrame(payload))
  {
    hide Checksum;
    var short := [|payload| as byte] + payload;
    if |payload| > Frame.MAX_SHORT {
      LeadingZero(short);
      assert [0, |payload| as byte] + payload == [0] + short;
      assert [0] + short + [Checksum(short)] == [0] + (short + [Checksum(short)]);
      assert Zeros(1) == [0];
    } else {
      assert Zeros(0) + RawFrame(payload) == RawFrame(payload);
    }
  }

  lemma LeadingZero(s: Bytes)
    ensures Checksum([0] + s) == Checksum(s)
  {
    assert ([0] + s)[1..] == s;
  }

  /** What a capture holds: encoded frames with arbitrary runs of zeros between them. */
  function Captured(gaps: seq<nat>, payloads: seq<Bytes>): Bytes
    requires |gaps| == |payloads| + 1
    decreases |payloads|
  {
    if payloads == [] then Zeros(gaps[0])
    else
      var f := EncodeSession(payloads[0]);
      Zeros(gaps[0]) + (if f.Ok? then f.value else []) + Captured(gaps[1..], payloads[1..])
  }

  lemma {:induction false} CapturedIsWoven(gaps: seq<nat>, payloads: seq<Bytes>) returns (wider: seq<nat>)
    requires |gaps| == |payloads| + 1 && AllCarriable(payloads)
    ensures |wider| == |gaps| && Captured(gaps, payloads) == Weave(wider, payloads)
    decreases |payloads|
  {
    hide EncodeSession, RawFrame;
    if payloads == [] {
      wider := gaps;
    } else {
      var rest := CapturedIsWoven(gaps[1..], payloads[1..]);
      EncodedIsRaw(payloads[0]);
      var extra: nat := if |payloads[0]| > Frame.MAX_SHORT then 1 else 0;
      wider := [gaps[0] + extra] + rest;
      var f, tail := RawFrame(payloads[0]), Weave(rest, payloads[1..]);
      calc {
        Captured(gaps, payloads);
        Zeros(gaps[0]) + (Zeros(extra) + f) + tail;
        Zeros(gaps[0]) + Zeros(extra) + (f + tail);
        { assert Zeros(gaps[0]) + Zeros(extra) == Zeros(gaps[0] + extra); }
        Zeros(gaps[0] + extra) + (f + tail);
        { assert wider[1..] == rest; }
        Weave(wider, payloads);
      }
    }
  }

  /** Splitting a capture recovers exactly the payloads that were encoded, and consumes everything. */
  lemma SplitRecoversPayloads(gaps: seq<nat>, payloads: seq<Bytes>)
    requires |gaps| == |payloads| + 1 && AllCarriable(payloads)
    ensures var b := Captured(gaps, payloads);
            var c := Split(b, true);
            && c.consumed == |b| && |c.frames| == |payloads|
            && forall i | 0 <= i < |payloads| :: PayloadOf(c.frames[i]) == payloads[i]
  {
    hide Split, Captured, Weave, Checksum;
    var wider := CapturedIsWoven(gaps, payloads);
    SplitsWhatIsWoven(wider, payloads, true);
    forall i | 0 <= i < |payloads| ensures PayloadOf(RawFrames(payloads)[i]) == payloads[i] {
      assert RawFrame(payloads[i])[1..][..|payloads[i]|] == payloads[i];
    }
  }

  /** `frame[1:-1]` */
  function PayloadOf(frame: Bytes): Bytes {
    if |frame| < 2 then [] else frame[1..][..|frame| - 2]
  }
}
