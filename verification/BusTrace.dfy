/** Who holds the one shared bus, read off a trace of sessions opened and released. */
module BusTrace {
  /** A session belongs to a data source of the dashboard or to a module being scanned for faults. */
  datatype Who = Source(id: nat) | Scanned(name: string)

  datatype BusEvent = Opened(who: Who) | Released(who: Who)

  datatype Hold = Free | Held(who: Who) | Conflict

  /** One event: opening needs a free bus, releasing is for the holder only. */
  function Next(h: Hold, e: BusEvent): Hold {
    match e
    case Opened(w) => if h == Free then Held(w) else Conflict
    case Released(w) => if h == Held(w) then Free else Conflict
  }

  function Holder(trace: seq<BusEvent>): Hold {
    if trace == [] then Free else Next(Holder(trace[..|trace| - 1]), trace[|trace| - 1])
  }

  lemma HolderOneMore(trace: seq<BusEvent>, e: BusEvent)
    ensures Holder(trace + [e]) == Next(Holder(trace), e)
  {
    assert (trace + [e])[..|trace|] == trace;
  }

  /** A trace without conflict at its end never had one: at every moment at most one session was open. */
  lemma {:induction false} NeverConflicted(trace: seq<BusEvent>, k: nat)
    requires Holder(trace) != Conflict && k <= |trace|
    ensures Holder(trace[..k]) != Conflict
  {
    if k == |trace| {
      assert trace[..k] == trace;
    } else {
      var before := trace[..|trace| - 1];
      NeverConflicted(before, k);
      assert before[..k] == trace[..k];
    }
  }

  /** Between two openings lies a release of the first session, in a trace without conflict. */
  lemma {:induction false} ReleasedBeforeNext(trace: seq<BusEvent>, i: nat, j: nat)
    requires Holder(trace) != Conflict
    requires i < j < |trace| && trace[i].Opened? && trace[j].Opened?
    ensures exists k :: i < k < j && trace[k] == Released(trace[i].who)
  {
    NeverConflicted(trace, j + 1);
    assert trace[..j + 1][..j] == trace[..j];
    assert Holder(trace[..j]) == Free;
    HeldUntilReleased(trace, i, j);
  }

  /** A session stays open until it is released. */
  lemma {:induction false} HeldUntilReleased(trace: seq<BusEvent>, i: nat, j: nat)
    requires Holder(trace) != Conflict
    requires i < j <= |trace| && trace[i].Opened? && Holder(trace[..j]) != Held(trace[i].who)
    ensures exists k :: i < k < j && trace[k] == Released(trace[i].who)
    decreases j
  {
    NeverConflicted(trace, j);
    assert trace[..j][..j - 1] == trace[..j - 1];
    if j > i + 1 && Holder(trace[..j - 1]) != Held(trace[i].who) {
      HeldUntilReleased(trace, i, j - 1);
    }
  }
}
