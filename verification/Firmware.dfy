/** The ESP32 node's reader of a KWP2000 reply: fixed C buffers filled and searched in place. */
module Firmware {
  import opened Wrappers
  import opened ByteStrings
  import opened Bus
  import opened Sequences
  import opened Kwp2000
  import K = KLine

  const REQ_SIZE := 16
  const BURST_SIZE := 96

  method ChecksumOf(d: array<byte>, n: nat) returns (c: byte)
    requires n <= d.Length
    ensures c == Checksum(d[..n])
  {
    var s: nat := 0;
    for i := 0 to n
      invariant s == Sum(d[..i])
    {
      s := s + d[i];
      SumConcat(d[..i], [d[i]]);
      assert d[..i] + [d[i]] == d[..i + 1];
    }
    c := s % 256;
  }

  method FindSeq(buf: array<byte>, n: nat, a: byte, b: byte) returns (r: int)
    requires n <= buf.Length
    ensures r == Find(buf[..n], [a, b])
  {
    var i := 0;
    while i + 1 < n
      invariant i <= n
      invariant Find(buf[..n], [a, b]) == FindFrom(buf[..n], [a, b], i)
    {
      assert buf[..n][i] == buf[i] && buf[..n][i + 1] == buf[i + 1];
      assert buf[..n][i..i + 2] == [buf[i], buf[i + 1]];
      if buf[i] == a && buf[i + 1] == b {
        return i;
      }
      i := i + 1;
    }
    if i < n {
      assert !OccursAt(buf[..n], [a, b], i);
      assert FindFrom(buf[..n], [a, b], i) == FindFrom(buf[..n], [a, b], i + 1);
    }
    return -1;
  }

  method FindByte(buf: array<byte>, n: nat, a: byte) returns (r: int)
    requires n <= buf.Length
    ensures r == Find(buf[..n], [a])
  {
    for i := 0 to n
      invariant Find(buf[..n], [a]) == FindFrom(buf[..n], [a], i)
    {
      assert buf[..n][i..i + 1] == [buf[i]];
      if buf[i] == a {
        return i;
      }
    }
    return -1;
  }

  lemma TruncateAppend(s: Bytes, more: Bytes, n: nat)
    ensures Truncate(s + more, n) == Truncate(Truncate(s, n) + more, n)
  {
  }

  /** Append bytes at `at` while there is room. */
  method Store(buf: array<byte>, at: nat, bytes: Bytes) returns (got: nat)
    requires at <= buf.Length
    modifies buf
    ensures got <= buf.Length
    ensures buf[..got] == Truncate(old(buf[..at]) + bytes, buf.Length)
  {
    got := at;
    ghost var before := buf[..at];
    for j := 0 to |bytes|
      invariant at <= got <= buf.Length
      invariant got == if at + j <= buf.Length then at + j else buf.Length
      invariant buf[..got] == before + bytes[..got - at]
    {
      if got < buf.Length {
        buf[got] := bytes[j];
        got := got + 1;
        assert bytes[..got - at] == bytes[..got - 1 - at] + [bytes[j]];
      }
    }
    assert (before + bytes)[..got] == before + bytes[..got - at];
  }

  /** Collect until a gap after data or the overall deadline; bytes beyond the capacity are dropped. */
  method ReadBurst(buf: array<byte>, line: seq<Rx>) returns (got: nat)
    modifies buf
    ensures got <= buf.Length
    ensures buf[..got] == Truncate(K.BurstRead(line, false).bytes, buf.Length)
  {
    got := 0;
    ghost var heard: Bytes := [];
    var any := false;
    var rest := line;
    while rest != []
      invariant got <= buf.Length
      invariant buf[..got] == Truncate(heard, buf.Length)
      invariant heard + K.BurstRead(rest, any).bytes == K.BurstRead(line, false).bytes
      decreases |rest|
    {
      assert heard + [] == heard;
      if rest[0].Expired? || (rest[0].bytes == [] && any) {
        return;
      }
      if rest[0].bytes != [] {
        assert heard + (rest[0].bytes + K.BurstRead(rest[1..], true).bytes)
            == heard + rest[0].bytes + K.BurstRead(rest[1..], true).bytes;
        TruncateAppend(heard, rest[0].bytes, buf.Length);
        got := Store(buf, got, rest[0].bytes);
        heard := heard + rest[0].bytes;
        any := true;
      }
      rest := rest[1..];
    }
    assert heard + [] == heard;
  }

  /** What the firmware's search makes of the burst it holds: the data field after the SID, if any. */
  function Reply(burst: Bytes, service: byte, payload: Bytes, outCap: nat): Option<Bytes> {
    var idx := PositiveAt(burst, service, payload);
    var neg := Find(burst, [NEGATIVE_RESPONSE, service]);
    if idx >= 1 && (neg < 0 || idx <= neg) then
      var announced: nat := if burst[idx - 1] >= 1 then burst[idx - 1] - 1 else 0;
      Some(Truncate(Truncate(burst[idx + 1..], announced), outCap))
    else None
  }

  /** The request the firmware puts on the bus. */
  function RequestBytes(service: byte, payload: Bytes): Bytes
    requires |payload| < 0xFF
  {
    var body := [(1 + |payload|) as byte, service] + payload;
    body + [Checksum(body)]
  }

  method BuildRequest(service: byte, payload: array<byte>, plen: nat) returns (req: array<byte>, n: nat)
    requires plen <= payload.Length && plen + 3 <= REQ_SIZE
    ensures fresh(req) && n <= req.Length == REQ_SIZE
    ensures req[..n] == RequestBytes(service, payload[..plen])
  {
    req := new byte[REQ_SIZE];
    req[0] := 1 + plen;
    req[1] := service;
    n := 2;
    ghost var head: Bytes := [(1 + plen) as byte, service];
    for i := 0 to plen
      invariant n == 2 + i
      invariant req[..n] == head + payload[..i]
    {
      req[n] := payload[i];
      n := n + 1;
      assert req[..n] == req[..n - 1] + [payload[i]];
      assert payload[..i + 1] == payload[..i] + [payload[i]];
    }
    ghost var body := req[..n];
    req[n] := ChecksumOf(req, n);
    assert req[..n] == body;
    n := n + 1;
  }

  method Search(burst: array<byte>, got: nat, service: byte, payload: Bytes) returns (idx: int)
    requires got <= burst.Length
    ensures idx == PositiveAt(burst[..got], service, payload)
  {
    var pos := Positive(service);
    idx := -1;
    if |payload| > 0 {
      idx := FindSeq(burst, got, pos, payload[0]);
    }
    if idx < 0 {
      idx := FindByte(burst, got, pos);
    }
  }

  /** Copy the data field after the SID, bounded by its length byte, the burst and the caller's buffer. */
  method CopyField(burst: array<byte>, got: nat, idx: nat, out: array<byte>, outCap: nat) returns (after: nat)
    requires 1 <= idx < got <= burst.Length && outCap <= out.Length && burst != out
    modifies out
    ensures var announced: nat := if burst[idx - 1] >= 1 then burst[idx - 1] - 1 else 0;
            after <= outCap && out[..after] == Truncate(Truncate(burst[..got][idx + 1..], announced), outCap)
    ensures out[after..] == old(out[after..])
  {
    var lenb: nat := burst[idx - 1];
    after := if lenb >= 1 then lenb - 1 else 0;
    if idx + 1 + after > got { after := got - (idx + 1); }
    if after > outCap { after := outCap; }
    forall i | 0 <= i < after {
      out[i] := burst[idx + 1 + i];
    }
    assert out[..after] == burst[..got][idx + 1..][..after];
  }

  method KwpRequest(line: seq<Rx>, service: byte, payload: array<byte>, plen: nat, out: array<byte>, outCap: nat)
    returns (r: int, sent: Bytes)
    requires plen <= payload.Length && plen + 3 <= REQ_SIZE
    requires outCap <= out.Length && payload != out
    modifies out
    ensures sent == RequestBytes(service, payload[..plen])
    ensures var burst := Truncate(K.BurstRead(line, false).bytes, BURST_SIZE);
            match Reply(burst, service, payload[..plen], outCap)
            case None => r == -1 && out[..] == old(out[..])
            case Some(data) => r == |data| <= outCap && out[..r] == data && out[r..] == old(out[r..])
  {
    hide RequestBytes, PositiveAt, Find, FindFrom, K.BurstRead, Truncate;
    var req, n := BuildRequest(service, payload, plen);
    sent := req[..n];
    var burst := new byte[BURST_SIZE];
    var got := ReadBurst(burst, line);
    ghost var heard := burst[..got];
    var idx := Search(burst, got, service, payload[..plen]);
    var neg := FindSeq(burst, got, NEGATIVE_RESPONSE, service);
    if idx >= 1 && (neg < 0 || idx <= neg) {
      assert heard[idx - 1] == burst[idx - 1];
      r := CopyField(burst, got, idx, out, outCap);
      return r, sent;
    }
    return -1, sent;
  }
}
