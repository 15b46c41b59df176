/**
 The KWP2000 frame codec (ISO 14230-2, "Message structure"): a format byte with address mode and
 length, optional target and source, an optional length byte, the data field and an additive checksum.
 */
module Frame {
  import opened Wrappers
  import opened ByteStrings

  datatype FrameError =
    | EmptyData | DataTooLong
    | TooShort | AddressedTooShort | UnsupportedMode | Truncated | ChecksumMismatch

  datatype Route = Route(target: byte, source: byte)

  datatype DecodedFrame = DecodedFrame(data: Bytes, route: Option<Route>)

  /** How a frame is addressed: session traffic carries no addresses. */
  datatype Addressing =
    | Unaddressed
    | Physical(target: byte, source: byte)
    | Functional(target: byte, source: byte)
  {
    function ToRoute(): Option<Route> {
      if Unaddressed? then None else Some(Route(target, source))
    }
  }

  const MAX_SHORT := 0x3F

  /** The header announcing `n` data bytes; `long` puts the length in a byte of its own. */
  function Header(a: Addressing, n: byte, long: bool): Bytes
    requires long || n <= MAX_SHORT
  {
    match a
    case Unaddressed => if long then [0, n] else [n]
    case Physical(t, s) => if long then [0x80, t, s, n] else [0x80 + n, t, s]
    case Functional(t, s) => if long then [0xC0, t, s, n] else [0xC0 + n, t, s]
  }

  /** A data field that some frame can carry. */
  predicate Carriable(data: Bytes, long: bool) {
    1 <= |data| <= 0xFF && (long || |data| <= MAX_SHORT)
  }

  /** What the standard calls a frame: header, data field, checksum over both. */
  function Framed(a: Addressing, data: Bytes, long: bool): (f: Bytes)
    requires Carriable(data, long)
    ensures var h := Header(a, |data|, long);
            |f| == |h| + |data| + 1 && f[..|h|] == h && f[|h|..|h| + |data|] == data
  {
    var h := Header(a, |data|, long);
    var f := h + data + [Checksum(h + data)];
    assert f[..|h|] == h && f[|h|..|h| + |data|] == data;
    f
  }

  function Encode(data: Bytes, target: byte, source: byte, addressed: bool, functional: bool)
    : Result<Bytes, FrameError>
  {
    var n := |data|;
    if n == 0 then Err(EmptyData)
    else if n > 0xFF then Err(DataTooLong)
    else
      var mode := if functional then 0xC0 else 0x80;
      var header: Bytes :=
        if addressed then
          if n <= MAX_SHORT then [mode + n, target, source] else [mode, target, source, n]
        else
          if n <= MAX_SHORT then [n] else [0x00, n];
      var body := header + data;
      Ok(body + [Checksum(body)])
  }

  function Decode(frame: Bytes): Result<DecodedFrame, FrameError> {
    if |frame| < 3 then Err(TooShort)
    else
      var fmt: nat := frame[0];
      var mode := fmt / 64;
      if mode >= 2 && |frame| < 5 then Err(AddressedTooShort)
      else if mode == 1 then Err(UnsupportedMode)
      else
        var route := if mode >= 2 then Some(Route(frame[1], frame[2])) else None;
        var after: nat := if mode >= 2 then 3 else 1;
        var short: nat := fmt % 64;
        var length: nat := if short == 0 then frame[after] else short;
        var idx: nat := if short == 0 then after + 1 else after;
        var end := idx + length;
        if end + 1 > |frame| then Err(Truncated)
        else if frame[end] != Checksum(frame[..end]) then Err(ChecksumMismatch)
        else Ok(DecodedFrame(frame[idx..end], route))
  }

  /** The addressing `Encode` realises for its arguments. */
  function Chosen(target: byte, source: byte, addressed: bool, functional: bool): Addressing {
    if !addressed then Unaddressed
    else if functional then Functional(target, source)
    else Physical(target, source)
  }

  lemma EncodeFrames(data: Bytes, target: byte, source: byte, addressed: bool, functional: bool)
    requires 1 <= |data| <= 0xFF
    ensures Encode(data, target, source, addressed, functional)
         == Ok(Framed(Chosen(target, source, addressed, functional), data, |data| > MAX_SHORT))
  {
  }

  lemma EncodeRejects(data: Bytes, target: byte, source: byte, addressed: bool, functional: bool)
    ensures Encode(data, target, source, addressed, functional).Err? <==> |data| == 0 || |data| > 0xFF
    ensures |data| == 0 ==> Encode(data, target, source, addressed, functional) == Err(EmptyData)
    ensures |data| > 0xFF ==> Encode(data, target, source, addressed, functional) == Err(DataTooLong)
  {
  }

  /** Decoding behind a known header: only the checksum is left to decide. */
  lemma DecodeBehindHeader(f: Bytes, a: Addressing, n: byte, long: bool)
    requires n > 0 && (long || n <= MAX_SHORT)
    requires Header(a, n, long) <= f
    requires |Header(a, n, long)| + n < |f|
    ensures var idx := |Header(a, n, long)|;
            Decode(f) == if f[idx + n] != Checksum(f[..idx + n]) then Err(ChecksumMismatch)
                         else Ok(DecodedFrame(f[idx..idx + n], a.ToRoute()))
  {
    var h := Header(a, n, long);
    assert forall k :: 0 <= k < |h| ==> f[k] == h[k];
  }

  /** Decoding any frame, whatever follows it on the wire, gives back its data field and addresses. */
  lemma DecodeFramed(a: Addressing, data: Bytes, long: bool, tail: Bytes)
    requires Carriable(data, long)
    ensures Decode(Framed(a, data, long) + tail) == Ok(DecodedFrame(data, a.ToRoute()))
  {
    hide Decode, Header, Checksum;
    var h := Header(a, |data|, long);
    var f := Framed(a, data, long) + tail;
    assert f == h + (data + ([Checksum(h + data)] + tail));
    assert f[..|h| + |data|] == h + data;
    assert f[|h|..|h| + |data|] == data;
    DecodeBehindHeader(f, a, |data|, long);
  }

  lemma DecodeEncode(data: Bytes, target: byte, source: byte, addressed: bool, functional: bool, tail: Bytes)
    requires 1 <= |data| <= 0xFF
    ensures var f := Encode(data, target, source, addressed, functional);
            f.Ok? && Decode(f.value + tail)
                  == Ok(DecodedFrame(data, if addressed then Some(Route(target, source)) else None))
  {
    EncodeFrames(data, target, source, addressed, functional);
    DecodeFramed(Chosen(target, source, addressed, functional), data, |data| > MAX_SHORT, tail);
  }

  /** Whatever decoding accepts starts with a header. */
  lemma AcceptedHeader(f: Bytes) returns (a: Addressing, n: byte, long: bool)
    requires Decode(f).Ok? && Decode(f).value.data != []
    ensures n > 0 && (long || n <= MAX_SHORT)
    ensures Header(a, n, long) <= f && |Header(a, n, long)| + n < |f|
    ensures (long <==> f[0] % 64 == 0) && (a.Unaddressed? <==> f[0] / 64 == 0)
  {
    hide Checksum;
    var fmt := f[0];
    long := fmt % 64 == 0;
    a := if fmt / 64 == 0 then Unaddressed
         else if fmt / 64 == 2 then Physical(f[1], f[2]) else Functional(f[1], f[2]);
    n := if !long then fmt % 64 else if a.Unaddressed? then f[1] else f[3];
  }

  /** Decoding is sound: whatever it accepts with a data field begins with a frame carrying that field. */
  lemma DecodeSound(f: Bytes) returns (a: Addressing, long: bool)
    requires Decode(f).Ok? && Decode(f).value.data != []
    ensures var df := Decode(f).value;
            Carriable(df.data, long) && df.route == a.ToRoute() && Framed(a, df.data, long) <= f
    ensures (long <==> f[0] % 64 == 0) && (a.Unaddressed? <==> f[0] / 64 == 0)
  {
    hide Decode, Header, Checksum;
    var n;
    a, n, long := AcceptedHeader(f);
    DecodeBehindHeader(f, a, n, long);
    var h := Header(a, n, long);
    var data := f[|h|..|h| + n];
    assert f[..|h| + n] == h + data;
    assert f[..|h| + n + 1] == Framed(a, data, long);
  }

  /** A frame without data, which the standard and the encoder do not know: the long header announcing none. */
  function EmptyFrame(a: Addressing): Bytes {
    Header(a, 0, true) + [Checksum(Header(a, 0, true))]
  }

  /** Decoding accepts such a frame ... */
  lemma DecodeOfEmpty(a: Addressing, tail: Bytes)
    ensures Decode(EmptyFrame(a) + tail) == Ok(DecodedFrame([], a.ToRoute()))
  {
    hide Checksum;
    var h := Header(a, 0, true);
    var f := EmptyFrame(a) + tail;
    assert f[..|h|] == h && f[|h|] == Checksum(h) && f[|h|..|h|] == [];
    assert forall k | 0 <= k < |h| :: f[k] == h[k];
  }

  /** ... and returns no data only for one. */
  lemma EmptyDecodeSound(f: Bytes) returns (a: Addressing)
    requires Decode(f).Ok? && Decode(f).value.data == []
    ensures EmptyFrame(a) <= f && Decode(f).value.route == a.ToRoute()
  {
    hide Checksum;
    a := if f[0] / 64 == 0 then Unaddressed
         else if f[0] / 64 == 2 then Physical(f[1], f[2]) else Functional(f[1], f[2]);
    var h := Header(a, 0, true);
    assert f[..|h|] == h;
    assert f[..|h| + 1] == EmptyFrame(a);
  }

  /** Frames are a prefix code: at most one of them starts a given byte string. */
  lemma FramedPrefixFree(a: Addressing, d: Bytes, long: bool, a': Addressing, d': Bytes, long': bool, s: Bytes)
    requires Carriable(d, long) && Carriable(d', long')
    requires Framed(a, d, long) <= s && Framed(a', d', long') <= s
    ensures a == a' && d == d' && long == long'
  {
    hide Framed, Decode;
    var f, f' := Framed(a, d, long), Framed(a', d', long');
    DecodeFramed(a, d, long, s[|f|..]);
    DecodeFramed(a', d', long', s[|f'|..]);
    assert f + s[|f|..] == s == f' + s[|f'|..];
    assert s[0] == f[..|Header(a, |d|, long)|][0] == f'[..|Header(a', |d'|, long')|][0];
  }

  /** Positions that fix where a frame ends: the format byte and a separate length byte. */
  predicate GovernsLength(a: Addressing, long: bool, i: nat) {
    i == 0 || (long && i == if a.Unaddressed? then 1 else 3)
  }

  /** A changed address byte leaves a header that announces the same length. */
  lemma HeaderSurvives(a: Addressing, n: byte, long: bool, i: nat, v: byte) returns (b: Addressing)
    requires long || n <= MAX_SHORT
    requires i < |Header(a, n, long)| && !GovernsLength(a, long, i)
    ensures Header(b, n, long) == Header(a, n, long)[i := v]
  {
    b := match a
      case Unaddressed => a
      case Physical(t, s) => if i == 1 then Physical(v, s) else Physical(t, v)
      case Functional(t, s) => if i == 1 then Functional(v, s) else Functional(t, v);
  }

  lemma ChangedByteChangesChecksum(s: Bytes, i: nat, v: byte)
    requires i < |s| && s[i] != v
    ensures Checksum(s[i := v]) != Checksum(s)
  {
    SumUpdate(s, i, v);
    var rest: int := Sum(s) - s[i];
    assert Sum(s) == rest + s[i] && Sum(s[i := v]) == rest + v;
  }

  /** A body and its checksum no longer match once a single byte of either has changed. */
  lemma DamageBreaksChecksum(body: Bytes, i: nat, v: byte)
    requires i <= |body|
    requires v != (body + [Checksum(body)])[i]
    ensures var g := (body + [Checksum(body)])[i := v];
            g[|body|] != Checksum(g[..|body|])
  {
    hide Checksum;
    var g := (body + [Checksum(body)])[i := v];
    if i < |body| {
      assert g[..|body|] == body[i := v];
      ChangedByteChangesChecksum(body, i, v);
    } else {
      assert g[..|body|] == body;
    }
  }

  /** Damage to any single byte that does not govern the length is caught by the checksum. */
  lemma DamageIsDetected(a: Addressing, data: Bytes, long: bool, tail: Bytes, i: nat, v: byte)
    requires Carriable(data, long)
    requires i < |Framed(a, data, long)| && !GovernsLength(a, long, i)
    requires v != Framed(a, data, long)[i]
    ensures Decode(Framed(a, data, long)[i := v] + tail) == Err(ChecksumMismatch)
  {
    hide Decode, Checksum, Header;
    var h := Header(a, |data|, long);
    var body := h + data;
    assert Framed(a, data, long) == body + [Checksum(body)];
    var f := Framed(a, data, long)[i := v];
    var g := f + tail;
    var b := a;
    if i < |h| {
      b := HeaderSurvives(a, |data|, long, i, v);
      assert f[..|h|] == h[i := v];
    } else {
      assert f[..|h|] == h;
    }
    assert g[..|h|] == f[..|h|] == Header(b, |data|, long);
    DamageBreaksChecksum(body, i, v);
    assert g[..|body|] == f[..|body|];
    DecodeBehindHeader(g, b, |data|, long);
  }

  /** Re-encoding restores the frame exactly when the short header was used wherever it fits. */
  lemma ReencodeIffCanonical(a: Addressing, data: Bytes, long: bool)
    requires Carriable(data, long)
    ensures Encode(data, if a.Unaddressed? then 0 else a.target, if a.Unaddressed? then 0 else a.source,
                   !a.Unaddressed?, a.Functional?) == Ok(Framed(a, data, long))
       <==> (long <==> |data| > MAX_SHORT)
  {
    var t := if a.Unaddressed? then 0 else a.target;
    var s := if a.Unaddressed? then 0 else a.source;
    EncodeFrames(data, t, s, !a.Unaddressed?, a.Functional?);
    if long && |data| <= MAX_SHORT {
      assert |Framed(a, data, true)| == |Framed(a, data, false)| + 1;
    }
  }
}
