/** The resynchronising scanner: the first checksum-valid frame in a buffer of noise and frames. */
module Scanner {
  import opened Wrappers
  import opened ByteStrings
  import opened Frame

  /** A frame found in a buffer and the number of bytes to drop to get past it. */
  datatype Hit = Hit(frame: DecodedFrame, consumed: nat)

  /** `buf[s..e]` is a complete, non-empty, checksum-valid frame that decodes to `df`. */
  ghost predicate FrameAt(buf: Bytes, s: nat, e: nat, df: DecodedFrame) {
    s <= e <= |buf| &&
    exists a: Addressing, long: bool ::
      Carriable(df.data, long) && df.route == a.ToRoute() && buf[s..e] == Framed(a, df.data, long)
  }

  /** A frame in a buffer has all its data there. */
  lemma FrameDataIsInBuffer(buf: Bytes, s: nat, e: nat, df: DecodedFrame)
    requires FrameAt(buf, s, e, df)
    ensures forall b | b in df.data :: b in buf
  {
    hide Framed, Header;
    var a: Addressing, long: bool :|
      Carriable(df.data, long) && df.route == a.ToRoute() && buf[s..e] == Framed(a, df.data, long);
    var h := |Header(a, |df.data|, long)|;
    assert buf[s..e][h..h + |df.data|] == df.data;
    forall i | 0 <= i < |df.data| ensures df.data[i] in buf {
      assert df.data[i] == buf[s..e][h + i] == buf[s + h + i];
    }
  }

  /** What the scan makes of one start position. */
  function TryAt(buf: Bytes, s: nat): (r: Option<Hit>)
    requires s < |buf|
    ensures r.Some? ==> s < r.value.consumed <= |buf| && r.value.frame.data != []
  {
    var fmt: nat := buf[s];
    var mode := fmt / 64;
    var after := if mode >= 2 then s + 3 else s + 1;
    var separate := fmt % 64 == 0;
    if mode == 1 then None
    else if separate && after >= |buf| then None
    else
      var length: nat := if separate then buf[after] else fmt % 64;
      var end: nat := (if separate then after + 1 else after) + length;
      if length < 1 || end + 1 > |buf| then None
      else
        match Decode(buf[s..end + 1])
        case Ok(df) => Some(Hit(df, end + 1))
        case Err(_) => None
  }

  function FirstFrameFrom(buf: Bytes, s: nat): (r: Option<Hit>)
    requires s <= |buf|
    ensures r.Some? ==> s < r.value.consumed <= |buf| && r.value.frame.data != []
    decreases |buf| - s
  {
    if s == |buf| then None
    else if TryAt(buf, s).Some? then TryAt(buf, s)
    else FirstFrameFrom(buf, s + 1)
  }

  function FirstFrame(buf: Bytes): (r: Option<Hit>)
    ensures r.Some? ==> 0 < r.value.consumed <= |buf| && r.value.frame.data != []
  {
    FirstFrameFrom(buf, 0)
  }

  method ScanForFrame(buf: Bytes) returns (r: Option<Hit>)
    ensures r == FirstFrame(buf)
  {
    hide Decode;
    var n := |buf|;
    for start := 0 to n
      invariant FirstFrame(buf) == FirstFrameFrom(buf, start)
    {
      var fmt: nat := buf[start];
      var mode := fmt / 64;
      var idx: nat := start + 1;
      if mode == 2 || mode == 3 {
        idx := idx + 2;
      } else if mode != 0 {
        continue;
      }
      var length: nat := fmt % 64;
      if length == 0 {
        if idx >= n { continue; }
        length := buf[idx];
        idx := idx + 1;
      }
      if length < 1 { continue; }
      var end: nat := idx + length;
      if end + 1 > n { continue; }
      match Decode(buf[start..end + 1]) {
        case Ok(df) => return Some(Hit(df, end + 1));
        case Err(_) => continue;
      }
    }
    r := None;
  }

  lemma TryAtFindsFrame(buf: Bytes, s: nat)
    requires s < |buf| && TryAt(buf, s).Some?
    ensures FrameAt(buf, s, TryAt(buf, s).value.consumed, TryAt(buf, s).value.frame)
  {
    hide Decode, Framed;
    var e := TryAt(buf, s).value.consumed;
    var df := TryAt(buf, s).value.frame;
    var a, long := DecodeSound(buf[s..e]);
    var f, h := Framed(a, df.data, long), Header(a, |df.data|, long);
    assert forall k :: 0 <= k < |h| ==> h[k] == f[..|h|][k] == buf[s..e][k] == buf[s + k];
    assert |f| == e - s;
  }

  /** A known header at `s` leaves only the decoding of the announced stretch to decide. */
  lemma TryBehindHeader(buf: Bytes, s: nat, a: Addressing, n: byte, long: bool)
    requires n > 0 && (long || n <= MAX_SHORT)
    requires s < |buf| && Header(a, n, long) <= buf[s..]
    requires s + |Header(a, n, long)| + n < |buf|
    ensures var e := s + |Header(a, n, long)| + n + 1;
            TryAt(buf, s) == match Decode(buf[s..e]) case Ok(df) => Some(Hit(df, e)) case Err(_) => None
  {
    hide Decode;
    var h := Header(a, n, long);
    assert forall k :: 0 <= k < |h| ==> buf[s + k] == buf[s..][k] == h[k];
  }

  lemma TryAtMissesNoFrame(buf: Bytes, s: nat, e: nat, df: DecodedFrame)
    requires FrameAt(buf, s, e, df)
    ensures s < |buf| && TryAt(buf, s) == Some(Hit(df, e))
  {
    hide Decode, Framed, TryAt;
    var a: Addressing, long: bool :|
      Carriable(df.data, long) && df.route == a.ToRoute() && buf[s..e] == Framed(a, df.data, long);
    DecodeFramed(a, df.data, long, []);
    var f := buf[s..e];
    assert f + [] == f;
    var h := Header(a, |df.data|, long);
    assert |f| == |h| + |df.data| + 1 && f[..|h|] == h;
    assert buf[s..][..|h|] == f[..|h|];
    TryBehindHeader(buf, s, a, |df.data|, long);
  }

  lemma {:induction false} FirstFrameFromIsLeast(buf: Bytes, s: nat)
    requires s <= |buf|
    ensures FirstFrameFrom(buf, s).None? ==> forall t | s <= t < |buf| :: TryAt(buf, t).None?
    ensures FirstFrameFrom(buf, s).Some? ==>
              exists t :: s <= t < |buf| && TryAt(buf, t) == FirstFrameFrom(buf, s)
                          && forall u | s <= u < t :: TryAt(buf, u).None?
    decreases |buf| - s
  {
    hide TryAt;
    if s < |buf| && TryAt(buf, s).None? {
      FirstFrameFromIsLeast(buf, s + 1);
    }
  }

  /** No complete frame lies anywhere in the buffer. */
  ghost predicate Frameless(buf: Bytes) {
    forall s: nat, e: nat, df :: !FrameAt(buf, s, e, df)
  }

  /** The scan reports nothing exactly when the buffer holds no frame. */
  lemma NoneIffFrameless(buf: Bytes)
    ensures FirstFrame(buf).None? <==> Frameless(buf)
  {
    hide TryAt, Framed;
    FirstFrameFromIsLeast(buf, 0);
    if FirstFrame(buf).None? {
      forall s: nat, e: nat, df ensures !FrameAt(buf, s, e, df) {
        if FrameAt(buf, s, e, df) { TryAtMissesNoFrame(buf, s, e, df); }
      }
    } else {
      var t :| 0 <= t < |buf| && TryAt(buf, t) == FirstFrame(buf);
      TryAtFindsFrame(buf, t);
    }
  }

  /** No frame starts before `s`. */
  ghost predicate NoFrameBefore(buf: Bytes, s: nat) {
    forall s': nat, e': nat, df :: s' < s ==> !FrameAt(buf, s', e', df)
  }

  lemma FirstFrameHasLeastStart(buf: Bytes, df: DecodedFrame, e: nat) returns (s: nat)
    requires FirstFrame(buf) == Some(Hit(df, e))
    ensures FrameAt(buf, s, e, df) && NoFrameBefore(buf, s)
  {
    hide TryAt, Framed, FrameAt;
    FirstFrameFromIsLeast(buf, 0);
    s :| 0 <= s < |buf| && TryAt(buf, s) == FirstFrame(buf) && forall u | 0 <= u < s :: TryAt(buf, u).None?;
    TryAtFindsFrame(buf, s);
    forall s': nat, e': nat, df' | s' < s ensures !FrameAt(buf, s', e', df') {
      if FrameAt(buf, s', e', df') { TryAtMissesNoFrame(buf, s', e', df'); }
    }
  }

  lemma LeastStartIsFirstFrame(buf: Bytes, s: nat, df: DecodedFrame, e: nat)
    requires FrameAt(buf, s, e, df) && NoFrameBefore(buf, s)
    ensures FirstFrame(buf) == Some(Hit(df, e))
  {
    hide TryAt, Framed, FrameAt;
    FirstFrameFromIsLeast(buf, 0);
    TryAtMissesNoFrame(buf, s, e, df);
    assert FirstFrame(buf).Some?;
    var t :| 0 <= t < |buf| && TryAt(buf, t) == FirstFrame(buf) && forall u | 0 <= u < t :: TryAt(buf, u).None?;
    if t < s {
      TryAtFindsFrame(buf, t);
    }
  }

  /** The scan reports `(df, e)` exactly when that frame has the least start of all frames in the buffer. */
  lemma SomeIffLeastStart(buf: Bytes, df: DecodedFrame, e: nat)
    ensures FirstFrame(buf) == Some(Hit(df, e)) <==> exists s: nat :: FrameAt(buf, s, e, df) && NoFrameBefore(buf, s)
  {
    hide FirstFrame, FrameAt, NoFrameBefore;
    if FirstFrame(buf) == Some(Hit(df, e)) {
      var s := FirstFrameHasLeastStart(buf, df, e);
    }
    if exists s: nat :: FrameAt(buf, s, e, df) && NoFrameBefore(buf, s) {
      var s: nat :| FrameAt(buf, s, e, df) && NoFrameBefore(buf, s);
      LeastStartIsFirstFrame(buf, s, df, e);
    }
  }

  /** Glitch bytes before a frame and anything after it are harmless, as long as no frame starts in the glitch. */
  lemma GlitchIsSkipped(glitch: Bytes, a: Addressing, data: Bytes, long: bool, tail: Bytes)
    requires Carriable(data, long)
    requires NoFrameBefore(glitch + Framed(a, data, long) + tail, |glitch|)
    ensures FirstFrame(glitch + Framed(a, data, long) + tail)
         == Some(Hit(DecodedFrame(data, a.ToRoute()), |glitch| + |Framed(a, data, long)|))
  {
    hide Framed, Header, FirstFrame;
    var f := Framed(a, data, long);
    var buf := glitch + f + tail;
    assert buf[|glitch|..|glitch| + |f|] == f;
    var df := DecodedFrame(data, a.ToRoute());
    assert FrameAt(buf, |glitch|, |glitch| + |f|, df);
    LeastStartIsFirstFrame(buf, |glitch|, df, |glitch| + |f|);
  }

  /** A frame at the front of the buffer is the one reported. */
  lemma FrontFrameWins(a: Addressing, data: Bytes, long: bool, tail: Bytes)
    requires Carriable(data, long)
    ensures FirstFrame(Framed(a, data, long) + tail)
         == Some(Hit(DecodedFrame(data, a.ToRoute()), |Framed(a, data, long)|))
  {
    hide Framed, Header, FirstFrame, FrameAt;
    var f := Framed(a, data, long);
    assert [] + f + tail == f + tail;
    GlitchIsSkipped([], a, data, long, tail);
  }
}
