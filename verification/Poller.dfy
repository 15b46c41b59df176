/**
 The dashboard's poller: one active module of several on one shared bus, commands queued by other
 threads and executed between polls, module and mode switches, and fault scans.
 */
module Poller {
  import opened Wrappers
  import opened BusTrace
  import FaultScan

  /** What the bus makes of one poll: can a session be established if needed, and does it live through the reads? */
  datatype Luck = Luck(connects: bool, survives: bool)

  datatype Status = Connecting | Connected | Failed

  datatype Snapshot = Snapshot(name: string, mode: Option<string>, status: Status)

  datatype Command =
    | SelectModule(name: string)
    | SetMode(mode: string)
    | ReadAllFaults(cable: bool, td5: FaultScan.Answer, slabs: FaultScan.Answer, airbag: FaultScan.Answer)
    | ForSource(action: string)

  /** A command for a source is answered by the source that is active when its turn comes. */
  datatype Reply = Done | Rejected | Report(rows: seq<FaultScan.Row>) | FromSource(id: nat)

  /** A data source and its session handle; simulated sources never open one. */
  class DataSource {
    const id: nat
    const simulated: bool
    var connected: bool

    constructor (id: nat, simulated: bool)
      ensures this.id == id && this.simulated == simulated && !connected
    {
      this.id, this.simulated, this.connected := id, simulated, false;
    }

    /** Best-effort teardown: whatever happens on the bus, the handle is gone. */
    method Disconnect(before: seq<BusEvent>) returns (trace: seq<BusEvent>)
      modifies this
      ensures !connected
      ensures trace == if old(connected) then before + [Released(Source(id))] else before
    {
      trace := before;
      if connected {
        trace := trace + [Released(Source(id))];
      }
      connected := false;
    }

    /** Establish lazily, read, and drop the session on any error. */
    method Poll(luck: Luck, before: seq<BusEvent>) returns (status: Status, trace: seq<BusEvent>)
      requires simulated ==> !connected
      requires Holder(before) == if connected then Held(Source(id)) else Free
      modifies this
      ensures connected == (!simulated && (old(connected) || luck.connects) && luck.survives)
      ensures status == if simulated || connected then Connected else Failed
      ensures Holder(trace) == if connected then Held(Source(id)) else Free
      ensures trace == before
                       + (if !simulated && !old(connected) && luck.connects then [Opened(Source(id))] else [])
                       + (if !simulated && (old(connected) || luck.connects) && !luck.survives
                          then [Released(Source(id))] else [])
    {
      trace := before;
      assert before + [] + [] == before && forall e :: before + [e] + [] == before + [] + [e] == before + [e];
      if simulated {
        return Connected, trace;
      }
      if !connected {
        if !luck.connects {
          return Failed, trace;
        }
        HolderOneMore(trace, Opened(Source(id)));
        trace := trace + [Opened(Source(id))];
        connected := true;
      }
      if !luck.survives {
        HolderOneMore(trace, Released(Source(id)));
        trace := trace + [Released(Source(id))];
        connected := false;
        return Failed, trace;
      }
      return Connected, trace;
    }
  }

  function Count(arrivals: seq<seq<Command>>): nat {
    if arrivals == [] then 0 else |arrivals[0]| + Count(arrivals[1..])
  }

  class DiagServer {
    const variants: map<string, seq<(string, DataSource)>>
    const modes: seq<string>
    const sources: set<DataSource>

    var active: string
    var mode: Option<string>
    var modules: map<string, DataSource>
    var source: DataSource
    var latest: Snapshot

    /** Batches of commands other threads will queue, and the queue itself. */
    var arrivals: seq<seq<Command>>
    var queue: seq<Command>

    var trace: seq<BusEvent>
    var replies: seq<Reply>
    ghost var arrived: seq<Command>
    ghost var executed: seq<Command>

    /** The source of the first variant for this mode, or of the first variant if there is none for it. */
    static ghost predicate IsVariantFor(v: seq<(string, DataSource)>, mode: Option<string>, s: DataSource) {
      if exists k | 0 <= k < |v| :: mode == Some(v[k].0) then
        exists k | 0 <= k < |v| ::
          mode == Some(v[k].0) && v[k].1 == s && forall j | 0 <= j < k :: mode != Some(v[j].0)
      else v != [] && v[0].1 == s
    }

    static function Pick(v: seq<(string, DataSource)>, mode: Option<string>): DataSource
      requires v != []
    {
      PickFrom(v, mode, 0)
    }

    static function PickFrom(v: seq<(string, DataSource)>, mode: Option<string>, i: nat): (s: DataSource)
      requires v != [] && i <= |v|
      ensures exists k :: 0 <= k < |v| && v[k].1 == s
      decreases |v| - i
    {
      if i == |v| then v[0].1
      else if mode == Some(v[i].0) then v[i].1
      else PickFrom(v, mode, i + 1)
    }

    static lemma {:induction false} PickIsVariantFor(v: seq<(string, DataSource)>, mode: Option<string>, i: nat)
      requires v != [] && i <= |v| && forall j | 0 <= j < i :: mode != Some(v[j].0)
      ensures IsVariantFor(v, mode, PickFrom(v, mode, i))
      decreases |v| - i
    {
      if i < |v| && mode != Some(v[i].0) {
        PickIsVariantFor(v, mode, i + 1);
      }
    }

    /** Each module's source in the chosen mode. */
    function ModulesFor(mode: Option<string>): map<string, DataSource>
      requires Configured()
    {
      map m | m in variants :: Pick(variants[m], mode)
    }

    predicate Configured() {
      && (forall m | m in variants :: variants[m] != [])
      && (forall m, i | m in variants && 0 <= i < |variants[m]| :: variants[m][i].1 in sources)
    }

    /** The invariant of the poller. */
    ghost predicate Valid()
      reads this, sources
    {
      && Configured()
      && active in variants
      && modules == ModulesFor(mode)
      && source == modules[active] && source in sources
      && (forall s | s in sources :: s.simulated ==> !s.connected)
      && (forall s | s in sources :: s != source ==> !s.connected)
      && Holder(trace) == (if source.connected then Held(Source(source.id)) else Free)
      && latest.name == active && latest.mode == mode
      && executed + queue == arrived && |replies| == |executed|
    }

    /** In every reachable state each module, the active one included, is its variant for the mode that is shown. */
    lemma ModulesFollowMode(name: string)
      requires Valid() && name in variants
      ensures name in modules && IsVariantFor(variants[name], mode, modules[name])
      ensures IsVariantFor(variants[active], mode, source) && latest.mode == mode
    {
      PickIsVariantFor(variants[name], mode, 0);
      PickIsVariantFor(variants[active], mode, 0);
    }

    lemma AllFollowMode()
      requires Valid()
      ensures forall name | name in variants :: name in modules && IsVariantFor(variants[name], mode, modules[name])
    {
      forall name | name in variants ensures name in modules && IsVariantFor(variants[name], mode, modules[name]) {
        ModulesFollowMode(name);
      }
    }

    lemma PickedIsSource(m: string, mode': Option<string>)
      requires Configured() && m in variants
      ensures Pick(variants[m], mode') in sources
    {
      var s := Pick(variants[m], mode');
      var k :| 0 <= k < |variants[m]| && variants[m][k].1 == s;
    }

    /** An unknown module or mode falls back to the first one there is. */
    constructor (variants: map<string, seq<(string, DataSource)>>, modes: seq<string>, sources: set<DataSource>,
                 first: string, active: string, mode: Option<string>, arrivals: seq<seq<Command>>)
      requires first in variants && forall m | m in variants :: variants[m] != []
      requires forall m, i | m in variants && 0 <= i < |variants[m]| :: variants[m][i].1 in sources
      requires forall s | s in sources :: !s.connected
      ensures Valid() && BusFree() && latest.status == Connecting && this.sources == sources && this.modes == modes
      ensures this.active == if active in variants then active else first
      ensures this.mode == if mode.Some? && mode.value in modes then mode
                           else if modes == [] then None else Some(modes[0])
      ensures trace == [] && queue == [] && this.arrivals == arrivals
    {
      var start := if active in variants then active else first;
      var chosen := if mode.Some? && mode.value in modes then mode else if modes == [] then None else Some(modes[0]);
      this.variants, this.modes, this.sources := variants, modes, sources;
      this.active, this.mode := start, chosen;
      this.modules := map m | m in variants :: Pick(variants[m], chosen);
      this.source := Pick(variants[start], chosen);
      this.latest := Snapshot(start, chosen, Connecting);
      this.arrivals, this.queue, this.trace, this.replies := arrivals, [], [], [];
      this.arrived, this.executed := [], [];
      new;
      PickedIsSource(start, chosen);
    }

    /** Another thread queues a command. Its caller may stop waiting for the answer; the command stays. */
    method Enqueue(cmd: Command)
      requires Valid()
      modifies this`queue, this`arrived
      ensures Valid() && queue == old(queue) + [cmd] && arrived == old(arrived) + [cmd]
    {
      queue := queue + [cmd];
      arrived := arrived + [cmd];
      assert executed + (old(queue) + [cmd]) == executed + old(queue) + [cmd];
    }

    /** Time passes, and the next batch of commands is queued. */
    method Tick()
      requires Valid()
      modifies this`queue, this`arrived, this`arrivals
      ensures Valid() && old(arrived) <= arrived
      ensures |queue| + Count(arrivals) == |old(queue)| + Count(old(arrivals))
      ensures var batch := if old(arrivals) == [] then [] else old(arrivals)[0];
              queue == old(queue) + batch && arrived == old(arrived) + batch
    {
      if arrivals != [] {
        var batch := arrivals[0];
        arrivals := arrivals[1..];
        assert executed + (queue + batch) == arrived + batch;
        queue, arrived := queue + batch, arrived + batch;
      }
    }

    /** Over the whole run so far: between any two sessions lies the release of the first. */
    lemma OneSessionAtATime(i: nat, j: nat)
      requires Valid() && i < j < |trace| && trace[i].Opened? && trace[j].Opened?
      ensures exists k :: i < k < j && trace[k] == Released(trace[i].who)
    {
      ReleasedBeforeNext(trace, i, j);
    }

    /** No source holds a session, and nobody else has the bus. */
    ghost predicate BusFree()
      reads this, sources
    {
      (forall s | s in sources :: !s.connected) && Holder(trace) == Free
    }

    /** What letting go of the active session adds to the trace. */
    function Letting(): seq<BusEvent>
      reads this, source
    {
      if source.connected then [Released(Source(source.id))] else []
    }

    method LetGo()
      requires Valid()
      modifies source, this`trace
      ensures Valid() && BusFree() && trace == old(trace + Letting())
    {
      if source.connected {
        HolderOneMore(trace, Released(Source(source.id)));
      }
      trace := source.Disconnect(trace);
    }

    /** On a free bus, make a module's source in a mode the active one. */
    method Repoint(name: string, newMode: Option<string>)
      requires Valid() && BusFree() && name in variants
      modifies this`active, this`mode, this`modules, this`source, this`latest
      ensures Valid() && BusFree()
      ensures active == name && mode == newMode && latest == Snapshot(name, newMode, Connecting)
    {
      hide Pick, Holder;
      active, mode := name, newMode;
      modules := ModulesFor(mode);
      PickedIsSource(name, newMode);
      source := modules[active];
      latest := Snapshot(active, mode, Connecting);
    }

    /** Release the old session, then repoint; the new one is established by the next poll. */
    method SwitchTo(name: string, newMode: Option<string>)
      requires Valid() && name in variants
      modifies this`active, this`mode, this`modules, this`source, this`latest, this`trace, source
      ensures Valid() && BusFree() && trace == old(trace + Letting())
      ensures active == name && mode == newMode && latest == Snapshot(name, newMode, Connecting)
    {
      hide Pick, Holder, Configured, ModulesFor;
      LetGo();
      Repoint(name, newMode);
    }

    method Select(name: string) returns (r: Reply)
      requires Valid()
      modifies this`active, this`mode, this`modules, this`source, this`latest, this`trace, source
      ensures Valid() && r == if name in variants then Done else Rejected
      ensures mode == old(mode) && active == if name in variants then name else old(active)
      ensures if active == old(active) then Undisturbed()
              else BusFree() && trace == old(trace + Letting()) && latest == Snapshot(active, mode, Connecting)
    {
      hide Holder, Pick;
      if name !in variants {
        return Rejected;
      }
      if name != active {
        SwitchTo(name, mode);
      }
      return Done;
    }

    method ChangeMode(m: string) returns (r: Reply)
      requires Valid()
      modifies this`active, this`mode, this`modules, this`source, this`latest, this`trace, source
      ensures Valid() && r == if m in modes then Done else Rejected
      ensures active == old(active) && mode == if m in modes then Some(m) else old(mode)
      ensures r == Done ==> forall name | name in variants ::
                name in modules && IsVariantFor(variants[name], Some(m), modules[name])
      ensures if mode == old(mode) then Undisturbed()
              else BusFree() && trace == old(trace + Letting()) && latest == Snapshot(active, mode, Connecting)
    {
      hide Holder, Pick;
      if m !in modes {
        return Rejected;
      }
      if mode != Some(m) {
        SwitchTo(active, Some(m));
      }
      AllFollowMode();
      return Done;
    }

    /** Neither the session nor what is shown has changed. */
    twostate predicate Undisturbed()
      reads this, sources
    {
      source == old(source) && latest == old(latest) && trace == old(trace)
      && forall s | s in sources :: s.connected == old(s.connected)
    }

    /** Release the active session, then scan: the bus is free before and after, and nobody is reconnected. */
    method ScanFaults(cable: bool, answers: seq<FaultScan.Answer>) returns (r: Reply)
      requires Valid() && |answers| == |FaultScan.LIVE|
      modifies this`trace, source
      ensures Valid() && BusFree()
      ensures r == Report(FaultScan.Rows(mode == Some("live"), cable, answers))
      ensures trace == old(trace + Letting())
                       + (if mode == Some("live") && cable then FaultScan.Turns(FaultScan.LIVE, answers) else [])
    {
      hide FaultScan.Rows, FaultScan.Turns;
      LetGo();
      var rows;
      rows, trace := FaultScan.ReadAll(mode == Some("live"), cable, answers, trace);
      return Report(rows);
    }

    /** What a command is answered, from the module and mode it meets. */
    function AnswerTo(cmd: Command): Reply
      reads this
    {
      match cmd
      case SelectModule(name) => if name in variants then Done else Rejected
      case SetMode(m) => if m in modes then Done else Rejected
      case ReadAllFaults(cable, td5, slabs, airbag) =>
        Report(FaultScan.Rows(mode == Some("live"), cable, [td5, slabs, airbag]))
      case ForSource(_) => FromSource(source.id)
    }

    /** One queued command; a command for a source never opens or closes its session. */
    method Execute(cmd: Command) returns (r: Reply)
      requires Valid()
      modifies this`active, this`mode, this`modules, this`source, this`latest, this`trace, source
      ensures Valid() && old(trace) <= trace && r == old(AnswerTo(cmd))
      ensures active == (if cmd.SelectModule? && cmd.name in variants then cmd.name else old(active))
      ensures mode == (if cmd.SetMode? && cmd.mode in modes then Some(cmd.mode) else old(mode))
      ensures cmd.ReadAllFaults? ==> BusFree()
      ensures cmd.ForSource? ==> r == FromSource(old(source.id))
      ensures !cmd.ReadAllFaults? && active == old(active) && mode == old(mode) ==> Undisturbed()
      ensures active != old(active) || mode != old(mode) ==>
                BusFree() && latest == Snapshot(active, mode, Connecting)
    {
      hide Holder, Pick;
      match cmd
      case SelectModule(name) => r := Select(name);
      case SetMode(m) => r := ChangeMode(m);
      case ReadAllFaults(cable, td5, slabs, airbag) =>
        r := ScanFaults(cable, [td5, slabs, airbag]);
      case ForSource(_) => r := FromSource(source.id);
    }

    /** Take the oldest command off the queue, execute and answer it. */
    method ExecuteNext()
      requires Valid() && queue != []
      modifies this`active, this`mode, this`modules, this`source, this`latest, this`trace, source
      modifies this`queue, this`executed, this`replies
      ensures Valid() && old(trace) <= trace && replies == old(replies) + [old(AnswerTo(queue[0]))]
      ensures queue == old(queue[1..]) && executed == old(executed + queue[..1])
    {
      hide Holder, Configured, ModulesFor;
      var cmd := queue[0];
      ghost var asked := executed + queue;
      var r := Execute(cmd);
      queue := queue[1..];
      executed, replies := executed + [cmd], replies + [r];
      assert executed + queue == asked;
    }

    /**
     Execute queued commands until none is left, while more may arrive. Each is executed exactly once, in
     the order of arrival, and answered, whether or not its caller is still waiting.
     */
    method DrainCommands()
      requires Valid()
      modifies this, sources
      ensures Valid() && old(trace) <= trace && old(arrived) <= arrived && old(replies) <= replies
      ensures queue == [] && executed == arrived && |replies| == |arrived|
    {
      while queue != []
        invariant Valid() && old(trace) <= trace && old(arrived) <= arrived && old(replies) <= replies
        decreases |queue| + Count(arrivals)
      {
        hide Holder, Configured, ModulesFor;
        ExecuteNext();
        Tick();
      }
      assert executed + [] == executed;
    }

    /** A source reports that it is trying to connect. */
    method ShowProgress()
      requires Valid()
      modifies this`latest
      ensures Valid() && latest == Snapshot(active, mode, Connecting)
    {
      latest := Snapshot(active, mode, Connecting);
    }

    /** Poll the active source and show what it says, under the module and mode it belongs to. */
    method PollSource(luck: Luck)
      requires Valid()
      modifies this`latest, this`trace, source
      ensures Valid() && old(trace) <= trace
      ensures source.connected == (!source.simulated && (old(source.connected) || luck.connects) && luck.survives)
      ensures latest == Snapshot(active, mode, if source.simulated || source.connected then Connected else Failed)
    {
      hide Holder, Configured, ModulesFor;
      var polled := active;
      ShowProgress();
      var status;
      status, trace := source.Poll(luck, trace);
      latest := Snapshot(polled, mode, status);
    }

    /** One round of the poll loop: first everything queued, then the active source. */
    method PollOnce(luck: Luck)
      requires Valid()
      modifies this, sources
      ensures Valid() && old(trace) <= trace && old(arrived) <= arrived
      ensures old(arrived) <= executed
      ensures !source.simulated ==> (source.connected ==> luck.survives)
                                    && (luck.connects && luck.survives ==> source.connected)
      ensures latest == Snapshot(active, mode, if source.simulated || source.connected then Connected else Failed)
    {
      hide Holder, Configured, ModulesFor;
      DrainCommands();
      PollSource(luck);
      Tick();
    }

    /** Any number of rounds, whatever the bus does and whatever is queued meanwhile. */
    method Run(luck: seq<Luck>)
      requires Valid()
      modifies this, sources
      ensures Valid() && old(trace) <= trace && old(arrived) <= arrived
    {
      for i := 0 to |luck|
        invariant Valid() && old(trace) <= trace && old(arrived) <= arrived
      {
        PollOnce(luck[i]);
      }
    }
  }
}
