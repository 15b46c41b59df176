/**
 The shared half-duplex bus, seen from the tester. The bus is adversarial: every transmission is
 followed by an arbitrary list of receive results, and flushing the input drops what is left of it.
 */
module Bus {
  import opened ByteStrings

  /** One receive: a chunk of bytes (empty when the line is quiet), or the caller's deadline passing. */
  datatype Rx = Chunk(bytes: Bytes) | Expired

  datatype Event =
    | Sent(frame: Bytes)
    | Slept(ms: nat)
    | Interrupted
    | Arrived(commands: nat)
    | Opened
    | Closed

  /** Receive buffer, receive results to come, those following later transmissions, and what was done. */
  datatype Wire = Wire(buf: Bytes, line: seq<Rx>, replies: seq<seq<Rx>>, log: seq<Event>)
  {
    function Flushed(): Wire {
      this.(buf := [], line := [])
    }

    function AfterSend(frame: Bytes): Wire {
      if replies == [] then this.(log := log + [Sent(frame)])
      else this.(log := log + [Sent(frame)], line := line + replies[0], replies := replies[1..])
    }

    /** Flush, transmit, and face whatever the bus makes of it. */
    function Transmitted(frame: Bytes): Wire {
      Flushed().AfterSend(frame)
    }
  }

  /** The bytes carried by a list of receive results. */
  function Flatten(line: seq<Rx>): Bytes {
    if line == [] then []
    else (if line[0].Chunk? then line[0].bytes else []) + Flatten(line[1..])
  }

  function Concat(parts: seq<Bytes>): Bytes {
    if parts == [] then [] else parts[0] + Concat(parts[1..])
  }

  function Chunks(parts: seq<Bytes>): seq<Rx> {
    seq(|parts|, i requires 0 <= i < |parts| => Chunk(parts[i]))
  }

  class Transport {
    var line: seq<Rx>
    var replies: seq<seq<Rx>>
    var log: seq<Event>

    method ResetInputBuffer()
      modifies `line
      ensures line == []
    {
      line := [];
    }

    method Send(frame: Bytes)
      modifies this
      ensures forall buf :: Wire(buf, line, replies, log)
                         == old(Wire(buf, line, replies, log)).AfterSend(frame)
    {
      log := log + [Sent(frame)];
      if replies != [] {
        line := line + replies[0];
        replies := replies[1..];
      }
    }

    /** Note something other than traffic in the log. */
    method Note(e: Event)
      modifies `log
      ensures log == old(log) + [e]
    {
      log := log + [e];
    }

    method Receive() returns (r: Rx)
      modifies `line
      ensures old(line) == [] ==> r == Expired && line == []
      ensures old(line) != [] ==> r == old(line)[0] && line == old(line)[1..]
    {
      if line == [] {
        r := Expired;
      } else {
        r := line[0];
        line := line[1..];
      }
    }
  }
}
