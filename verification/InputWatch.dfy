/** The wiggle-watch: debounced change events for the bits of polled identifiers, over a quiet baseline. */
module InputWatch {
  import opened ByteStrings

  /** One poll: the data read per identifier; identifiers that failed are absent. */
  type Reading = map<string, Bytes>

  datatype Key = Key(lid: string, off: nat, bit: nat)

  datatype Event = Event(key: Key, was: nat, now: nat)

  function KeysOf(r: Reading): set<Key> {
    set lid, off, bit | lid in r && 0 <= off < |r[lid]| && 0 <= bit < 8 :: Key(lid, off, bit)
  }

  /** A bit of a reading that has it. */
  function BitAt(r: Reading, k: Key): (v: nat)
    requires k in KeysOf(r)
    ensures v <= 1
  {
    BitOf(r[k.lid][k.off], k.bit)
  }

  /** A reading is taken apart without loss: eight bits for every byte, which make it up, and no other bits. */
  lemma BitsOfReading(r: Reading, lid: string, off: nat)
    requires lid in r && off < |r[lid]|
    ensures forall bit: nat :: Key(lid, off, bit) in KeysOf(r) <==> bit < 8
    ensures r[lid][off]
         == BitAt(r, Key(lid, off, 0)) + 2 * BitAt(r, Key(lid, off, 1)) + 4 * BitAt(r, Key(lid, off, 2))
            + 8 * BitAt(r, Key(lid, off, 3)) + 16 * BitAt(r, Key(lid, off, 4)) + 32 * BitAt(r, Key(lid, off, 5))
            + 64 * BitAt(r, Key(lid, off, 6)) + 128 * BitAt(r, Key(lid, off, 7))
    ensures forall k | k in KeysOf(r) :: k.lid in r && k.off < |r[k.lid]|
  {
    hide BitOf;
    BitsMakeByte(r[lid][off]);
  }

  /** The bits present in every sample. */
  function CommonKeys(samples: seq<Reading>): (keys: set<Key>)
    requires samples != []
    ensures forall k :: k in keys <==> forall i | 0 <= i < |samples| :: k in KeysOf(samples[i])
  {
    if |samples| == 1 then KeysOf(samples[0])
    else CommonKeys(samples[..|samples| - 1]) * KeysOf(samples[|samples| - 1])
  }

  /** Bits that change by themselves while nothing is touched. */
  function VolatileBits(samples: seq<Reading>): set<Key> {
    if samples == [] then {}
    else
      set k | k in CommonKeys(samples)
              && exists i | 0 <= i < |samples| :: BitAt(samples[i], k) != BitAt(samples[0], k)
  }

  function Ones(samples: seq<Reading>, k: Key): (n: nat)
    requires forall i | 0 <= i < |samples| :: k in KeysOf(samples[i])
    ensures n <= |samples|
  {
    if samples == [] then 0
    else Ones(samples[..|samples| - 1], k) + BitAt(samples[|samples| - 1], k)
  }

  function Majority(samples: seq<Reading>, k: Key): (v: nat)
    requires forall i | 0 <= i < |samples| :: k in KeysOf(samples[i])
    ensures v <= 1
  {
    if Ones(samples, k) * 2 > |samples| then 1 else 0
  }

  /** The debounced value of every bit that all samples have and that is not masked. */
  function StableBits(samples: seq<Reading>, mask: set<Key>): map<Key, nat> {
    if samples == [] then map[]
    else map k | k in CommonKeys(samples) - mask :: Majority(samples, k)
  }

  function ChangedBits(ref: map<Key, nat>, cur: map<Key, nat>): set<Key> {
    set k | k in cur && k in ref && ref[k] != cur[k]
  }

  lemma StableMeaning(samples: seq<Reading>, mask: set<Key>, k: Key)
    requires k in StableBits(samples, mask)
    ensures samples != [] && k !in mask && forall i | 0 <= i < |samples| :: k in KeysOf(samples[i])
    ensures StableBits(samples, mask)[k] == Majority(samples, k)
  {
    hide KeysOf, Majority;
  }

  /** Debounced are exactly the unmasked bits that every reading of the window has. */
  lemma StableIff(samples: seq<Reading>, mask: set<Key>, k: Key)
    ensures k in StableBits(samples, mask) <==>
              samples != [] && k !in mask && forall i | 0 <= i < |samples| :: k in KeysOf(samples[i])
  {
    hide KeysOf, Majority;
  }

  // ---- the baseline ---------------------------------------------------- //

  lemma {:induction false} OnesOfConstant(samples: seq<Reading>, k: Key, v: nat)
    requires forall i | 0 <= i < |samples| :: k in KeysOf(samples[i]) && BitAt(samples[i], k) == v
    requires v <= 1
    ensures Ones(samples, k) == v * |samples|
  {
    if samples != [] {
      OnesOfConstant(samples[..|samples| - 1], k, v);
    }
  }

  /** The baseline value of an unmasked bit is that bit's value in every baseline sample. */
  lemma BaselineIsEverySample(base: seq<Reading>, k: Key, i: nat)
    requires i < |base| && k in StableBits(base, VolatileBits(base))
    ensures k in KeysOf(base[i]) && StableBits(base, VolatileBits(base))[k] == BitAt(base[i], k)
  {
    hide KeysOf, BitAt, Ones;
    StableMeaning(base, VolatileBits(base), k);
    var v := BitAt(base[0], k);
    forall j | 0 <= j < |base| ensures BitAt(base[j], k) == v {}
    OnesOfConstant(base, k, v);
  }

  /** A bit is watched exactly if every baseline sample has it and it never changes. */
  lemma WatchedIff(base: seq<Reading>, k: Key)
    ensures k in StableBits(base, VolatileBits(base)) <==>
              && base != [] && (forall i | 0 <= i < |base| :: k in KeysOf(base[i]))
              && forall i | 0 <= i < |base| :: BitAt(base[i], k) == BitAt(base[0], k)
  {
    hide KeysOf, BitAt, Majority;
    if base != [] {
      assert k in CommonKeys(base) <==> forall i | 0 <= i < |base| :: k in KeysOf(base[i]);
    }
  }

  /** The readings in which a bit is set. */
  ghost function SetIn(samples: seq<Reading>, k: Key): set<nat>
    requires forall i | 0 <= i < |samples| :: k in KeysOf(samples[i])
  {
    set i: nat | i < |samples| && BitAt(samples[i], k) == 1
  }

  lemma SetInOneMore(samples: seq<Reading>, k: Key)
    requires samples != [] && forall i | 0 <= i < |samples| :: k in KeysOf(samples[i])
    ensures var last := |samples| - 1;
            && last !in SetIn(samples[..last], k)
            && SetIn(samples, k) == SetIn(samples[..last], k) + if BitAt(samples[last], k) == 1 then {last} else {}
  {
    hide KeysOf, BitAt;
    var last := |samples| - 1;
    forall i: nat | i < |samples|
      ensures i in SetIn(samples, k) <==> if i == last then BitAt(samples[i], k) == 1 else i in SetIn(samples[..last], k)
    {
      assert i < last ==> samples[..last][i] == samples[i];
    }
  }

  lemma {:induction false} OnesIsCount(samples: seq<Reading>, k: Key)
    requires forall i | 0 <= i < |samples| :: k in KeysOf(samples[i])
    ensures Ones(samples, k) == |SetIn(samples, k)|
  {
    if samples == [] {
      assert SetIn(samples, k) == {};
    } else {
      hide KeysOf, BitAt, SetIn;
      SetInOneMore(samples, k);
      OnesIsCount(samples[..|samples| - 1], k);
    }
  }

  /** The debounced value is 1 exactly if the bit is set in more than half of the readings; a tie is 0. */
  lemma MajorityIsMoreThanHalf(samples: seq<Reading>, k: Key)
    requires forall i | 0 <= i < |samples| :: k in KeysOf(samples[i])
    ensures Majority(samples, k) == if 2 * |SetIn(samples, k)| > |samples| then 1 else 0
  {
    hide KeysOf, BitAt;
    OnesIsCount(samples, k);
  }

  /** Of three readings, two show the majority value. */
  lemma MajorityOfThree(window: seq<Reading>, k: Key) returns (i: nat, j: nat)
    requires |window| == 3 && forall m | 0 <= m < 3 :: k in KeysOf(window[m])
    ensures i < j < 3 && BitAt(window[i], k) == BitAt(window[j], k) == Majority(window, k)
  {
    var a, b, c := BitAt(window[0], k), BitAt(window[1], k), BitAt(window[2], k);
    assert window[..2][..1][..0] == [];
    assert Ones(window[..2][..1], k) == a;
    assert Ones(window[..2], k) == a + b;
    assert Ones(window, k) == a + b + c;
    i, j := if a == b then 0 else if a == c then 0 else 1, if a == b then 1 else 2;
  }

  // ---- events ---------------------------------------------------------- //

  /** The levels after some events on top of the baseline. */
  function Replay(ref: map<Key, nat>, events: seq<Event>): map<Key, nat> {
    if events == [] then ref
    else
      var e := events[|events| - 1];
      Replay(ref, events[..|events| - 1])[e.key := e.now]
  }

  /** Every event starts from the level its bit was left at, and flips it. */
  ghost predicate Coherent(ref: map<Key, nat>, events: seq<Event>) {
    events != [] ==>
      var before, e := events[..|events| - 1], events[|events| - 1];
      Coherent(ref, before) && e.key in ref && e.key in Replay(ref, before)
      && e.was == Replay(ref, before)[e.key] && e.was <= 1 && e.now == 1 - e.was
  }

  lemma OneMoreEvent(ref: map<Key, nat>, events: seq<Event>, e: Event)
    ensures Replay(ref, events + [e]) == Replay(ref, events)[e.key := e.now]
    ensures Coherent(ref, events) && e.key in ref && e.key in Replay(ref, events)
            && e.was == Replay(ref, events)[e.key] && e.was <= 1 && e.now == 1 - e.was
            ==> Coherent(ref, events + [e])
  {
    assert (events + [e])[..|events|] == events;
  }

  lemma {:induction false} CoherentAt(ref: map<Key, nat>, events: seq<Event>, n: nat)
    requires Coherent(ref, events) && n <= |events|
    ensures Coherent(ref, events[..n])
  {
    if n == |events| {
      assert events[..n] == events;
    } else {
      CoherentAt(ref, events[..|events| - 1], n);
      assert events[..|events| - 1][..n] == events[..n];
    }
  }

  lemma {:induction false} LevelPersists(ref: map<Key, nat>, events: seq<Event>, i: nat, j: nat)
    requires i < j <= |events|
    requires forall m | i < m < j :: events[m].key != events[i].key
    ensures events[i].key in Replay(ref, events[..j]) && Replay(ref, events[..j])[events[i].key] == events[i].now
    decreases j
  {
    assert events[..j][..j - 1] == events[..j - 1];
    if j > i + 1 {
      LevelPersists(ref, events, i, j - 1);
    }
  }

  /** Successive events of one bit strictly alternate. */
  lemma EventsAlternate(ref: map<Key, nat>, events: seq<Event>, i: nat, j: nat)
    requires Coherent(ref, events) && i < j < |events|
    requires events[i].key == events[j].key && forall m | i < m < j :: events[m].key != events[i].key
    ensures events[j].was == events[i].now && events[j].now == events[i].was
    ensures events[i].was != events[i].now
  {
    CoherentAt(ref, events, i + 1);
    CoherentAt(ref, events, j + 1);
    assert events[..i + 1][..i] == events[..i] && events[..j + 1][..j] == events[..j];
    LevelPersists(ref, events, i, j);
  }

  /** What justifies an event: an unmasked bit, in every frame of the window, and two of three frames agree. */
  ghost predicate Justified(window: seq<Reading>, mask: set<Key>, e: Event) {
    && window != [] && e.key !in mask
    && (forall i | 0 <= i < |window| :: e.key in KeysOf(window[i]))
    && e.now == Majority(window, e.key)
    && (|window| == 3 ==> exists i, j | 0 <= i < j < 3 ::
          BitAt(window[i], e.key) == e.now && BitAt(window[j], e.key) == e.now)
  }

  lemma StableJustifies(window: seq<Reading>, mask: set<Key>, e: Event)
    requires e.key in StableBits(window, mask) && e.now == StableBits(window, mask)[e.key]
    ensures Justified(window, mask, e) && e.now <= 1
  {
    hide KeysOf, StableBits;
    StableMeaning(window, mask, e.key);
    if |window| == 3 {
      var i, j := MajorityOfThree(window, e.key);
    }
  }

  // ---- the watch loop -------------------------------------------------- //

  class Watcher {
    const mask: set<Key>
    const baseline: map<Key, nat>
    var window: seq<Reading>
    var ref: map<Key, nat>
    var events: seq<Event>

    ghost predicate Valid()
      reads this
    {
      && |window| <= 3
      && ref.Keys == baseline.Keys && baseline.Keys !! mask
      && ref == Replay(baseline, events) && Coherent(baseline, events)
      && (forall k | k in ref :: ref[k] <= 1)
    }

    /** Mask what moves by itself during the baseline, and take the rest as resting levels. */
    constructor (base: seq<Reading>)
      ensures Valid() && mask == VolatileBits(base) && baseline == StableBits(base, mask)
      ensures ref == baseline && events == [] && window == []
    {
      mask := VolatileBits(base);
      baseline := StableBits(base, VolatileBits(base));
      ref := StableBits(base, VolatileBits(base));
      window, events := [], [];
    }

    /**
     One poll: the window moves on, and every watched bit whose debounced value differs from its resting
     level emits one event and gets a new resting level. The order among the bits is not fixed.
     */
    method Observe(frame: Reading)
      requires Valid()
      modifies this
      ensures Valid()
      ensures window == (if |old(window)| == 3 then old(window)[1..] else old(window)) + [frame]
      ensures |old(events)| <= |events| && events[..|old(events)|] == old(events)
      ensures forall i | |old(events)| <= i < |events| :: Justified(window, mask, events[i])
      ensures forall k | k in ref ::
                ref[k] == if k in StableBits(window, mask) then StableBits(window, mask)[k] else old(ref)[k]
    {
      hide StableBits, Replay, Coherent, Justified, CommonKeys;
      window := window + [frame];
      if |window| > 3 {
        window := window[|window| - 3..];
      }
      EmitChanges();
    }

    /** One event for every watched bit whose debounced value differs from its level. */
    method EmitChanges()
      requires Valid()
      modifies this`events, this`ref
      ensures Valid() && |old(events)| <= |events| && events[..|old(events)|] == old(events)
      ensures forall i | |old(events)| <= i < |events| :: Justified(window, mask, events[i])
      ensures forall k | k in ref ::
                ref[k] == if k in StableBits(window, mask) then StableBits(window, mask)[k] else old(ref)[k]
    {
      hide StableBits, Replay, Coherent, Justified, CommonKeys;
      var cur := StableBits(window, mask);
      ghost var start := ref;
      var pending := ChangedBits(ref, cur);
      while pending != {}
        invariant Valid() && pending <= ChangedBits(start, cur) && ref.Keys == start.Keys
        invariant |old(events)| <= |events| && events[..|old(events)|] == old(events)
        invariant forall i | |old(events)| <= i < |events| :: Justified(window, mask, events[i])
        invariant forall k | k in ref ::
                    ref[k] == if k in ChangedBits(start, cur) && k !in pending then cur[k] else start[k]
        decreases pending
      {
        var k :| k in pending;
        Emit(k, cur[k]);
        pending := pending - {k};
      }
    }

    method Emit(k: Key, now: nat)
      requires Valid() && k in ref
      requires k in StableBits(window, mask) && now == StableBits(window, mask)[k] && now != ref[k]
      modifies this`events, this`ref
      ensures Valid() && ref == old(ref)[k := now]
      ensures events == old(events) + [Event(k, old(ref)[k], now)]
      ensures Justified(window, mask, Event(k, old(ref)[k], now))
    {
      hide KeysOf, BitAt, CommonKeys, Majority, StableBits, Justified, Replay, Coherent;
      var e := Event(k, ref[k], now);
      StableJustifies(window, mask, e);
      OneMoreEvent(baseline, events, e);
      events := events + [e];
      ref := ref[k := now];
    }
  }
}
