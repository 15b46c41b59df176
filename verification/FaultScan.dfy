/** Reading the fault codes of all modules one after the other over the shared bus. */
module FaultScan {
  import opened BusTrace

  /** How one module answers: the port, the establishment or the read may fail. */
  datatype Answer = PortFails | EstablishFails | ReadFails | Faults(codes: seq<string>)

  datatype Row =
    | Read(name: string, faults: seq<string>)
    | Unread(name: string)
    | Unimplemented(name: string)

  const LIVE := ["TD5", "SLABS", "Airbag"]
  /** The demonstration data shown without a car. */
  const DEMO: seq<Row> := [
    Read("TD5", []),
    Read("SLABS", ["020: front right wheel speed sensor \U{2014} output too low (Logged)",
                   "027: shuttle valve switch \U{2014} electrical failure (Logged)"]),
    Read("Airbag", ["004: airbag warning lamp \U{2014} open circuit intermittent",
                    "022: open circuit intermittent"])]
  const UNIMPLEMENTED := ["ACE", "Auto Gearbox", "BCU"]

  function RowFor(name: string, cable: bool, answer: Answer): Row {
    if cable && answer.Faults? then Read(name, answer.codes) else Unread(name)
  }

  /** What one module's turn puts on the bus: a port that cannot be opened is not released either. */
  function TurnOf(name: string, answer: Answer): seq<BusEvent> {
    if answer.PortFails? then [] else [Opened(Scanned(name)), Released(Scanned(name))]
  }

  /** The turns of some modules, in order. */
  function Turns(names: seq<string>, answers: seq<Answer>): seq<BusEvent>
    requires |names| == |answers|
  {
    if names == [] then []
    else
      var n := |names| - 1;
      Turns(names[..n], answers[..n]) + TurnOf(names[n], answers[n])
  }

  /** The report: one row per module with a reader, demonstration data without a car, then the modules without one. */
  function Rows(live: bool, cable: bool, answers: seq<Answer>): seq<Row>
    requires |answers| == |LIVE|
  {
    (if live then seq(|LIVE|, i requires 0 <= i < |LIVE| => RowFor(LIVE[i], cable, answers[i])) else DEMO)
    + seq(|UNIMPLEMENTED|, i requires 0 <= i < |UNIMPLEMENTED| => Unimplemented(UNIMPLEMENTED[i]))
  }

  /** A module's turn takes a free bus and gives it back. */
  lemma TurnFreesBus(before: seq<BusEvent>, name: string, answer: Answer)
    requires Holder(before) == Free
    ensures Holder(before + TurnOf(name, answer)) == Free
  {
    var start, end := Opened(Scanned(name)), Released(Scanned(name));
    HolderOneMore(before, start);
    HolderOneMore(before + [start], end);
    assert before + [start] + [end] == before + [start, end];
    assert before + [] == before;
  }

  /** Open, establish, read and - in any case once it is open - release one module. */
  method ReadModule(name: string, answer: Answer, before: seq<BusEvent>) returns (row: Row, trace: seq<BusEvent>)
    ensures row == if answer.Faults? then Read(name, answer.codes) else Unread(name)
    ensures trace == before + if answer.PortFails? then [] else [Opened(Scanned(name)), Released(Scanned(name))]
  {
    row, trace := Unread(name), before;
    if answer.PortFails? {
      return;
    }
    trace := trace + [Opened(Scanned(name))];
    if answer.Faults? {
      row := Read(name, answer.codes);
    }
    trace := trace + [Released(Scanned(name))];
  }

  /** Modules take their turns in the order of the list, one whole turn after the other. */
  lemma {:induction false} TurnsInOrder(names: seq<string>, answers: seq<Answer>, k: nat)
    requires k < |names| == |answers|
    ensures Turns(names[..k], answers[..k]) + TurnOf(names[k], answers[k]) <= Turns(names, answers)
  {
    hide TurnOf;
    var n := |names| - 1;
    if k == n {
      assert names[..k] == names[..n];
    } else {
      TurnsInOrder(names[..n], answers[..n], k);
      assert names[..n][..k] == names[..k] && answers[..n][..k] == answers[..k];
    }
  }

  lemma OneMoreTurn(names: seq<string>, answers: seq<Answer>, i: nat, before: seq<BusEvent>)
    requires i < |names| == |answers|
    ensures before + Turns(names[..i], answers[..i]) + TurnOf(names[i], answers[i])
         == before + Turns(names[..i + 1], answers[..i + 1])
  {
    hide TurnOf;
    assert names[..i + 1][..i] == names[..i] && answers[..i + 1][..i] == answers[..i];
  }

  /**
   The live report: one row per module in order. Started on a free bus it opens each module only after
   the one before is released, and leaves the bus free.
   */
  method LiveReport(names: seq<string>, cable: bool, answers: seq<Answer>, before: seq<BusEvent>)
    returns (rows: seq<Row>, trace: seq<BusEvent>)
    requires |answers| == |names| && Holder(before) == Free
    ensures |rows| == |names| && forall i | 0 <= i < |names| ::
              rows[i] == if cable && answers[i].Faults? then Read(names[i], answers[i].codes) else Unread(names[i])
    ensures trace == before + (if cable then Turns(names, answers) else []) && Holder(trace) == Free
  {
    hide Holder, Turns;
    rows, trace := [], before;
    ghost var turns := if cable then Turns(names[..0], answers[..0]) else [];
    NoTurns(names, answers);
    for i := 0 to |names|
      invariant |rows| == i && forall k | 0 <= k < i ::
                  rows[k] == if cable && answers[k].Faults? then Read(names[k], answers[k].codes) else Unread(names[k])
      invariant turns == if cable then Turns(names[..i], answers[..i]) else []
      invariant trace == before + turns && Holder(trace) == Free
    {
      var row := Unread(names[i]);
      if cable {
        TurnFreesBus(trace, names[i], answers[i]);
        row, trace := ReadModule(names[i], answers[i], trace);
        OneMoreTurn(names, answers, i, before);
        turns := Turns(names[..i + 1], answers[..i + 1]);
      }
      rows := rows + [row];
    }
    assert names[..|names|] == names && answers[..|names|] == answers;
  }

  lemma NoTurns(names: seq<string>, answers: seq<Answer>)
    requires |names| == |answers|
    ensures Turns(names[..0], answers[..0]) == []
  {
  }

  /** All modules, those without a reader in the code listed as such. */
  method ReadAll(live: bool, cable: bool, answers: seq<Answer>, before: seq<BusEvent>)
    returns (rows: seq<Row>, trace: seq<BusEvent>)
    requires |answers| == |LIVE| && Holder(before) == Free
    ensures rows == Rows(live, cable, answers) && |rows| == |LIVE| + |UNIMPLEMENTED|
    ensures forall i | 0 <= i < |LIVE| ::
              rows[i] == if !live then DEMO[i]
                         else if cable && answers[i].Faults? then Read(LIVE[i], answers[i].codes)
                         else Unread(LIVE[i])
    ensures forall i | 0 <= i < |UNIMPLEMENTED| :: rows[|LIVE| + i] == Unimplemented(UNIMPLEMENTED[i])
    ensures trace == before + (if live && cable then Turns(LIVE, answers) else []) && Holder(trace) == Free
  {
    if live {
      rows, trace := LiveReport(LIVE, cable, answers, before);
    } else {
      rows, trace := DEMO, before;
    }
    ghost var read := rows;
    for i := 0 to |UNIMPLEMENTED|
      invariant |read| == |LIVE| && rows == read + seq(i, k requires 0 <= k < i => Unimplemented(UNIMPLEMENTED[k]))
    {
      rows := rows + [Unimplemented(UNIMPLEMENTED[i])];
    }
  }
}
