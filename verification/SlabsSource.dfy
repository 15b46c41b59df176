/**
 The SLABS data source: a module that tolerates about one bus poll a second. Over a whole run, its
 traffic is throttled, its extra identifiers rotate, and only three silent polls in a row end a session.
 */
module SlabsSource {
  import opened Wrappers
  import opened ByteStrings
  import opened Modular

  const BUS_PERIOD := 1.0
  const FAULT_PERIOD := 30.0
  const EMPTY_GRACE := 3

  datatype Reason = LostContact | Undecodable | Asked

  /**
   What happened on the bus, in order. A poll sends a keepalive, the height read, a read of one extra
   identifier if there are any, and now and then up to two fault-code reads.
   */
  datatype Entry =
    | Connect(lids: seq<byte>)
    | Poll(t: real, answered: bool, extra: Option<byte>, faultReads: nat)
    | Drop(reason: Reason)

  /** How the bus and the clock treat one call of poll. */
  datatype Luck = Luck(connects: bool, lids: seq<byte>, now: real, answered: bool, decodes: bool, firstBlockRead: bool)

  // ---- what a log means ------------------------------------------------ //

  /** The extra identifiers of the current session. */
  function Lids(log: seq<Entry>): seq<byte> {
    if log == [] then []
    else if log[|log| - 1].Connect? then log[|log| - 1].lids
    else Lids(log[..|log| - 1])
  }

  function Polls(log: seq<Entry>): nat {
    if log == [] then 0 else Polls(log[..|log| - 1]) + if log[|log| - 1].Poll? then 1 else 0
  }

  /** How many polls at the end of the log found no height. */
  function Streak(log: seq<Entry>): nat {
    if log == [] then 0
    else if log[|log| - 1].Poll? && !log[|log| - 1].answered then 1 + Streak(log[..|log| - 1])
    else 0
  }

  /** Extra identifiers take turns: poll number `k` of the whole run reads the one at `k mod n`. */
  function Turn(lids: seq<byte>, k: nat): Option<byte> {
    if lids == [] then None else Some(lids[k % |lids|])
  }

  ghost predicate BusRested(before: seq<Entry>, t: real) {
    forall j | 0 <= j < |before| && before[j].Poll? :: t >= before[j].t + BUS_PERIOD
  }

  ghost predicate FaultsRested(before: seq<Entry>, t: real) {
    forall j | 0 <= j < |before| && before[j].Poll? && before[j].faultReads > 0 :: t >= before[j].t + FAULT_PERIOD
  }

  /** What the source owes the bus, entry by entry. */
  ghost predicate EntryOk(before: seq<Entry>, e: Entry) {
    match e
    case Connect(lids) => Streak(before) == 0 && lids != []
    case Poll(t, _, extra, faultReads) =>
      && Streak(before) < EMPTY_GRACE
      && extra == Turn(Lids(before), Polls(before))
      && faultReads <= 2
      && BusRested(before, t)
      && (faultReads > 0 ==> FaultsRested(before, t))
    case Drop(reason) => reason == LostContact <==> Streak(before) == EMPTY_GRACE
  }

  ghost predicate AllOk(log: seq<Entry>) {
    log != [] ==> AllOk(log[..|log| - 1]) && EntryOk(log[..|log| - 1], log[|log| - 1])
  }

  lemma OneMore(log: seq<Entry>, e: Entry)
    requires AllOk(log) && EntryOk(log, e)
    ensures AllOk(log + [e])
    ensures Lids(log + [e]) == if e.Connect? then e.lids else Lids(log)
    ensures Polls(log + [e]) == Polls(log) + if e.Poll? then 1 else 0
    ensures Streak(log + [e]) == if e.Poll? && !e.answered then Streak(log) + 1 else 0
  {
    hide EntryOk;
    assert (log + [e])[..|log|] == log;
  }

  lemma {:induction false} OkAt(log: seq<Entry>, k: nat)
    requires AllOk(log) && k <= |log|
    ensures AllOk(log[..k])
    ensures k < |log| ==> EntryOk(log[..k], log[k])
  {
    hide EntryOk;
    if k == |log| {
      assert log[..k] == log;
    } else {
      var before := log[..|log| - 1];
      OkAt(before, k);
      assert before[..k] == log[..k];
    }
  }

  // ---- whole runs ------------------------------------------------------ //

  /** Service and identifier. */
  datatype Request = Request(service: byte, lid: Option<byte>)

  /**
   What an entry puts on the bus: a bare keepalive, the heights, the extra identifier whose turn it is, and
   then the logged and the current fault codes, the second only if the first were read.
   */
  function Requests(e: Entry): seq<Request> {
    match e
    case Poll(_, _, extra, faultReads) =>
      [Request(0x3E, None), Request(0x21, Some(0x54))]
      + (if extra.Some? then [Request(0x21, extra)] else [])
      + (if faultReads >= 1 then [Request(0x21, Some(0x11))] else [])
      + (if faultReads >= 2 then [Request(0x21, Some(0x47))] else [])
    case _ => []
  }

  /** Every poll begins with the keepalive and the heights, and asks for nothing but what it logs. */
  lemma PollRequests(e: Entry, r: Request)
    requires e.Poll?
    ensures |Requests(e)| >= 2 && Requests(e)[0] == Request(0x3E, None) && Requests(e)[1] == Request(0x21, Some(0x54))
    ensures r in Requests(e)[2..] <==>
              r.service == 0x21 && r.lid.Some?
              && (r.lid == e.extra || (r.lid.value == 0x11 && e.faultReads >= 1) || (r.lid.value == 0x47 && e.faultReads >= 2))
  {
    var extra := if e.extra.Some? then [Request(0x21, e.extra)] else [];
    var logged := if e.faultReads >= 1 then [Request(0x21, Some(0x11))] else [];
    var current := if e.faultReads >= 2 then [Request(0x21, Some(0x47))] else [];
    assert Requests(e) == [Request(0x3E, None), Request(0x21, Some(0x54))] + (extra + logged + current);
    assert Requests(e)[2..] == extra + logged + current;
    assert r in extra + logged + current <==> r in extra || r in logged || r in current;
  }

  /** Requests of polls between two moments. */
  function Traffic(log: seq<Entry>, a: real, b: real): nat {
    if log == [] then 0
    else
      var e := log[|log| - 1];
      Traffic(log[..|log| - 1], a, b)
      + if e.Poll? && a <= e.t <= b then |Requests(e)| else 0
  }

  function PollCount(log: seq<Entry>, a: real, b: real, withFaults: bool): nat {
    if log == [] then 0
    else
      var e := log[|log| - 1];
      PollCount(log[..|log| - 1], a, b, withFaults)
      + if e.Poll? && a <= e.t <= b && (withFaults ==> e.faultReads > 0) then 1 else 0
  }

  function Period(withFaults: bool): real {
    if withFaults then FAULT_PERIOD else BUS_PERIOD
  }

  /** Polls in a window are a period apart, so the last of `n` comes at least `n - 1` periods after its start. */
  lemma {:induction false} LastPollIsLate(log: seq<Entry>, a: real, b: real, withFaults: bool) returns (j: nat)
    requires AllOk(log) && PollCount(log, a, b, withFaults) > 0
    ensures j < |log| && log[j].Poll? && a <= log[j].t <= b && (withFaults ==> log[j].faultReads > 0)
    ensures (PollCount(log, a, b, withFaults) - 1) as real * Period(withFaults) <= log[j].t - a
  {
    hide Streak, Lids, Polls;
    var before, e := log[..|log| - 1], log[|log| - 1];
    if PollCount(before, a, b, withFaults) == 0 {
      j := |log| - 1;
    } else {
      j := LastPollIsLate(before, a, b, withFaults);
      if e.Poll? && a <= e.t <= b && (withFaults ==> e.faultReads > 0) {
        assert e.t >= before[j].t + Period(withFaults);
        j := |log| - 1;
      }
    }
  }

  lemma {:induction false} TrafficByCounts(log: seq<Entry>, a: real, b: real)
    requires AllOk(log)
    ensures Traffic(log, a, b) <= 3 * PollCount(log, a, b, false) + 2 * PollCount(log, a, b, true)
  {
    if log != [] {
      TrafficByCounts(log[..|log| - 1], a, b);
    }
  }

  /** In any window of `T` seconds polls send at most 3(floor T + 1) + 2(floor(T/30) + 1) requests. */
  lemma WindowTrafficIsBounded(log: seq<Entry>, a: real, T: real)
    requires AllOk(log) && T >= 0.0
    ensures Traffic(log, a, a + T) <= 3 * (T.Floor + 1) + 2 * ((T / 30.0).Floor + 1)
  {
    hide AllOk, Traffic, PollCount;
    var b := a + T;
    TrafficByCounts(log, a, b);
    if PollCount(log, a, b, false) > 0 {
      var j := LastPollIsLate(log, a, b, false);
      assert (PollCount(log, a, b, false) - 1) as real <= T;
    }
    if PollCount(log, a, b, true) > 0 {
      var j := LastPollIsLate(log, a, b, true);
      assert (PollCount(log, a, b, true) - 1) as real * 30.0 <= T;
      assert (PollCount(log, a, b, true) - 1) as real <= T / 30.0;
    }
  }

  /** Two bus polls are never less than a second apart, in one session or across sessions. */
  lemma PollsAreSpaced(log: seq<Entry>, i: nat, j: nat)
    requires AllOk(log) && i < j < |log| && log[i].Poll? && log[j].Poll?
    ensures log[j].t >= log[i].t + 1.0
  {
    OkAt(log, j);
    assert log[..j][i] == log[i];
  }

  /** `n` consecutive polls starting at `i`. */
  ghost predicate AllPolls(log: seq<Entry>, i: nat, n: nat) {
    i + n <= |log| && forall k | i <= k < i + n :: log[k].Poll?
  }

  lemma {:induction false} TurnsAdvance(log: seq<Entry>, i: nat, n: nat)
    requires AllOk(log) && AllPolls(log, i, n)
    ensures Lids(log[..i + n]) == Lids(log[..i]) && Polls(log[..i + n]) == Polls(log[..i]) + n
    ensures forall k | i <= k < i + n :: log[k].extra == Turn(Lids(log[..i]), Polls(log[..i]) + (k - i))
  {
    hide AllOk, BusRested, FaultsRested, Streak;
    if n > 0 {
      TurnsAdvance(log, i, n - 1);
      var last := i + n - 1;
      OkAt(log, last);
      assert log[..i + n][..last] == log[..last];
    }
  }

  /** Any `n` consecutive bus polls of a session with `n` extra identifiers read each of them exactly once. */
  lemma RotationCoversOnce(log: seq<Entry>, i: nat, lids: seq<byte>, m: nat) returns (k: nat)
    requires AllOk(log) && i <= |log| && lids == Lids(log[..i]) && m < |lids|
    requires AllPolls(log, i, |lids|)
    requires forall x, y | 0 <= x < y < |lids| :: lids[x] != lids[y]
    ensures i <= k < i + |lids| && log[k].extra == Some(lids[m])
    ensures forall k' | i <= k' < i + |lids| && k' != k :: log[k'].extra != Some(lids[m])
  {
    hide AllOk, Lids, Polls;
    var p, n := Polls(log[..i]), |lids|;
    TurnsAdvance(log, i, n);
    k := i + if m >= p % n then m - p % n else m + n - p % n;
    AddRemainder(p, k - i, n);
    forall k' | i <= k' < i + n && k' != k ensures log[k'].extra != Some(lids[m]) {
      AddRemainder(p, k' - i, n);
    }
  }

  /** The three entries before `k` are polls that found no height. */
  predicate ThreeSilent(log: seq<Entry>, k: nat)
    requires k <= |log|
  {
    k >= 3 && forall j | k - 3 <= j < k :: Silent(log[j])
  }

  predicate Silent(e: Entry) {
    e.Poll? && !e.answered
  }

  lemma StreakStep(log: seq<Entry>, k: nat)
    requires AllOk(log) && 0 < k <= |log|
    ensures Streak(log[..k]) == if Silent(log[k - 1]) then Streak(log[..k - 1]) + 1 else 0
    ensures Silent(log[k - 1]) ==> Streak(log[..k - 1]) < EMPTY_GRACE
  {
    hide AllOk, BusRested, FaultsRested, Lids, Polls;
    OkAt(log, k - 1);
    assert log[..k][..k - 1] == log[..k - 1];
  }

  /** A session is given up for lost contact exactly after three consecutive polls without a height. */
  lemma LostExactlyAfterThreeSilent(log: seq<Entry>, k: nat)
    requires AllOk(log) && k < |log|
    ensures log[k] == Drop(LostContact) <==> ThreeSilent(log, k)
  {
    hide AllOk, BusRested, FaultsRested, Lids, Polls;
    assert log[..0] == [];
    OkAt(log, k);
    if k >= 1 {
      StreakStep(log, k);
      if k >= 2 {
        StreakStep(log, k - 1);
        if k >= 3 {
          StreakStep(log, k - 2);
        }
      }
    }
  }

  /** What one bus poll logs, given whose turn it is, the silence so far and whether fault codes are due. */
  function PollEntries(luck: Luck, extra: Option<byte>, streak: nat, due: bool): seq<Entry> {
    if !luck.answered then
      [Poll(luck.now, false, extra, 0)] + if streak + 1 >= EMPTY_GRACE then [Drop(LostContact)] else []
    else if !luck.decodes then [Poll(luck.now, true, extra, 0), Drop(Undecodable)]
    else [Poll(luck.now, true, extra, if !due then 0 else if luck.firstBlockRead then 2 else 1)]
  }

  /** When the bus was last polled, 0 if never. */
  function LastPoll(log: seq<Entry>): real {
    if log == [] then 0.0
    else if log[|log| - 1].Poll? then log[|log| - 1].t
    else LastPoll(log[..|log| - 1])
  }

  /** When fault codes were last read, 0 if never. */
  function LastFaultRead(log: seq<Entry>): real {
    if log == [] then 0.0
    else if log[|log| - 1].Poll? && log[|log| - 1].faultReads > 0 then log[|log| - 1].t
    else LastFaultRead(log[..|log| - 1])
  }

  lemma TimesOneMore(log: seq<Entry>, e: Entry)
    ensures LastPoll(log + [e]) == if e.Poll? then e.t else LastPoll(log)
    ensures LastFaultRead(log + [e]) == if e.Poll? && e.faultReads > 0 then e.t else LastFaultRead(log)
  {
    assert (log + [e])[..|log|] == log;
  }

  // ---- the object ------------------------------------------------------ //

  class SlabsDataSource {
    const readFaults: bool
    var connected: bool
    var extraLids: seq<byte>
    var rot: nat
    var emptyStreak: nat
    var lastBus: real
    var lastFault: real
    var log: seq<Entry>

    /** The fields agree with the log, and the log is in order. */
    ghost predicate Valid()
      reads this
    {
      && AllOk(log)
      && (if connected then emptyStreak == Streak(log) < EMPTY_GRACE && extraLids == Lids(log) != []
          else Streak(log) == 0)
      && rot == Polls(log) && lastBus == LastPoll(log) && lastFault == LastFaultRead(log)
      && (forall j | 0 <= j < |log| && log[j].Poll? :: log[j].t <= lastBus)
      && (forall j | 0 <= j < |log| && log[j].Poll? && log[j].faultReads > 0 :: log[j].t <= lastFault)
    }

    constructor (readFaults: bool)
      ensures Valid() && !connected && log == [] && this.readFaults == readFaults
    {
      this.readFaults, connected, extraLids := readFaults, false, [];
      rot, emptyStreak, lastBus, lastFault, log := 0, 0, 0.0, 0.0, [];
    }

    method Note(e: Entry)
      requires AllOk(log) && EntryOk(log, e)
      modifies this`log
      ensures AllOk(log) && log == old(log) + [e]
      ensures Lids(log) == if e.Connect? then e.lids else Lids(old(log))
      ensures Polls(log) == Polls(old(log)) + if e.Poll? then 1 else 0
      ensures Streak(log) == if e.Poll? && !e.answered then Streak(old(log)) + 1 else 0
      ensures LastPoll(log) == if e.Poll? then e.t else LastPoll(old(log))
      ensures LastFaultRead(log) == if e.Poll? && e.faultReads > 0 then e.t else LastFaultRead(old(log))
    {
      hide EntryOk, AllOk, Streak, Lids, Polls, LastPoll, LastFaultRead;
      OneMore(log, e);
      TimesOneMore(log, e);
      log := log + [e];
    }

    method Disconnect()
      requires Valid()
      modifies this`connected, this`log
      ensures Valid() && !connected
      ensures log == if old(connected) then old(log) + [Drop(Asked)] else old(log)
    {
      if connected {
        Note(Drop(Asked));
      }
      connected := false;
    }

    /** A session is established only when there is none. */
    function Born(luck: Luck): seq<Entry>
      reads this
    {
      if !connected && luck.connects then [Connect(luck.lids)] else []
    }

    method ConnectIfNeeded(luck: Luck)
      requires Valid() && luck.lids != []
      modifies this
      ensures Valid() && connected == (old(connected) || luck.connects)
      ensures log == old(log + Born(luck)) && Polls(log) == Polls(old(log)) && Streak(log) == Streak(old(log))
      ensures connected ==> Lids(log) == if old(connected) then Lids(old(log)) else luck.lids
      ensures lastBus == old(lastBus) && lastFault == old(lastFault)
    {
      hide AllOk, Streak, Lids, Polls, LastPoll, LastFaultRead;
      if !connected && luck.connects {
        Note(Connect(luck.lids));
        connected, emptyStreak, extraLids := true, 0, luck.lids;
      }
    }

    /** Keepalive, heights, one extra identifier; then give up, wait, or decode and read faults if they are due. */
    method BusPoll(luck: Luck)
      requires Valid() && connected && luck.now - lastBus >= BUS_PERIOD
      modifies this
      ensures Valid() && log != [] && connected == !log[|log| - 1].Drop? && lastBus == luck.now
      ensures var due := readFaults && luck.now - old(lastFault) >= FAULT_PERIOD;
              log == old(log) + PollEntries(luck, Turn(Lids(old(log)), Polls(old(log))), Streak(old(log)), due)
              && lastFault == if luck.answered && luck.decodes && due then luck.now else old(lastFault)
      ensures luck.answered && luck.decodes && readFaults && luck.now >= LastFaultRead(old(log)) + FAULT_PERIOD ==>
                log[|log| - 1].Poll? && log[|log| - 1].t == luck.now && log[|log| - 1].faultReads >= 1
    {
      hide AllOk, Streak, Lids, Polls, LastPoll, LastFaultRead;
      lastBus := luck.now;
      var extra := None;
      if extraLids != [] {
        extra := Some(extraLids[rot % |extraLids|]);
        rot := rot + 1;
      }
      if !luck.answered {
        Note(Poll(luck.now, false, extra, 0));
        emptyStreak := emptyStreak + 1;
        if emptyStreak >= EMPTY_GRACE {
          Note(Drop(LostContact));
          connected := false;
        }
        return;
      }
      emptyStreak := 0;
      if !luck.decodes {
        Note(Poll(luck.now, true, extra, 0));
        Note(Drop(Undecodable));
        connected := false;
        return;
      }
      var faultReads := 0;
      if readFaults && luck.now - lastFault >= FAULT_PERIOD {
        lastFault := luck.now;
        faultReads := if luck.firstBlockRead then 2 else 1;
      }
      Note(Poll(luck.now, true, extra, faultReads));
    }

    ghost predicate BusDue(luck: Luck)
      reads this
    {
      (connected || luck.connects) && luck.now - lastBus >= BUS_PERIOD
    }

    /** One call: connect if needed, and poll the bus unless that was done less than a second ago. */
    method PollOnce(luck: Luck)
      requires Valid() && luck.lids != []
      modifies this
      ensures Valid()
      ensures !old(BusDue(luck)) ==> log == old(log + Born(luck)) && connected == (old(connected) || luck.connects)
                                     && lastBus == old(lastBus)
      ensures old(BusDue(luck)) <==> (old(connected) || luck.connects) && luck.now >= LastPoll(old(log)) + BUS_PERIOD
      ensures old(BusDue(luck)) ==>
                var due := readFaults && luck.now - old(lastFault) >= FAULT_PERIOD;
                var lids := if old(connected) then Lids(old(log)) else luck.lids;
                log == old(log + Born(luck)) + PollEntries(luck, Turn(lids, Polls(old(log))), Streak(old(log)), due)
                && log != [] && connected == !log[|log| - 1].Drop? && lastBus == luck.now
    {
      hide AllOk, Streak, Lids, Polls, PollEntries, LastPoll, LastFaultRead;
      ConnectIfNeeded(luck);
      if connected && luck.now - lastBus >= BUS_PERIOD {
        BusPoll(luck);
      }
    }
  }
}
