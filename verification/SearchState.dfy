/** Finding the bit or byte that tells the states of an input apart, over all readings and identifiers. */
module SearchState {
  import opened Wrappers
  import opened ByteStrings

  /** One reading: the state shown in plain text and the raw bytes per identifier. */
  datatype Sample = Sample(state: string, raws: map<string, Bytes>)

  datatype Field = BitAt(off: nat, bit: nat) | ByteAt(off: nat)

  /** A field under the candidate identifier at `index`. */
  datatype Found = Found(index: nat, field: Field)

  predicate Fits(raw: Bytes, f: Field) {
    f.off < |raw| && (f.BitAt? ==> f.bit < 8)
  }

  function ValueAt(raw: Bytes, f: Field): nat
    requires Fits(raw, f)
  {
    match f
    case BitAt(off, bit) => BitOf(raw[off], bit)
    case ByteAt(off) => raw[off]
  }

  /** Bits before bytes, then lower offsets, then lower bits. */
  predicate Less(f: Field, g: Field) {
    if f.BitAt? && g.BitAt? then f.off < g.off || (f.off == g.off && f.bit < g.bit)
    else if f.ByteAt? && g.ByteAt? then f.off < g.off
    else f.BitAt?
  }

  /** Every reading has this field. */
  predicate Readable(samples: seq<Sample>, lid: string, f: Field) {
    forall i | 0 <= i < |samples| :: lid in samples[i].raws && Fits(samples[i].raws[lid], f)
  }

  /** Equal states exactly when equal values. */
  ghost predicate Separating(states: seq<string>, vals: seq<nat>)
    requires |states| == |vals|
  {
    forall i, j | 0 <= i < |states| && 0 <= j < |states| :: states[i] == states[j] <==> vals[i] == vals[j]
  }

  function States(samples: seq<Sample>): seq<string> {
    seq(|samples|, i requires 0 <= i < |samples| => samples[i].state)
  }

  function Values(samples: seq<Sample>, lid: string, f: Field): seq<nat>
    requires Readable(samples, lid, f)
  {
    seq(|samples|, i requires 0 <= i < |samples| => ValueAt(samples[i].raws[lid], f))
  }

  ghost predicate Separates(samples: seq<Sample>, lid: string, f: Field) {
    Readable(samples, lid, f) && Separating(States(samples), Values(samples, lid, f))
  }

  /** What separating means for a whole byte and for a bit, on the readings' bytes. */
  lemma SeparatesIff(samples: seq<Sample>, lid: string, off: nat, bit: nat)
    requires bit < 8 && forall i | 0 <= i < |samples| :: lid in samples[i].raws && off < |samples[i].raws[lid]|
    ensures Separates(samples, lid, ByteAt(off)) <==>
              forall i, j | 0 <= i < |samples| && 0 <= j < |samples| ::
                samples[i].state == samples[j].state <==> samples[i].raws[lid][off] == samples[j].raws[lid][off]
    ensures Separates(samples, lid, BitAt(off, bit)) <==>
              forall i, j | 0 <= i < |samples| && 0 <= j < |samples| ::
                samples[i].state == samples[j].state
                <==> BitOf(samples[i].raws[lid][off], bit) == BitOf(samples[j].raws[lid][off], bit)
  {
    hide BitOf;
    forall f | f == ByteAt(off) || f == BitAt(off, bit)
      ensures Separates(samples, lid, f) <==>
                forall i, j | 0 <= i < |samples| && 0 <= j < |samples| ::
                  samples[i].state == samples[j].state
                  <==> ValueAt(samples[i].raws[lid], f) == ValueAt(samples[j].raws[lid], f)
    {
      SeparatesByValue(samples, lid, f);
    }
  }

  lemma SeparatesByValue(samples: seq<Sample>, lid: string, f: Field)
    requires Readable(samples, lid, f)
    ensures Separates(samples, lid, f) <==>
              forall i, j | 0 <= i < |samples| && 0 <= j < |samples| ::
                samples[i].state == samples[j].state
                <==> ValueAt(samples[i].raws[lid], f) == ValueAt(samples[j].raws[lid], f)
  {
    hide ValueAt;
    var s, v := States(samples), Values(samples, lid, f);
    assert forall i | 0 <= i < |samples| :: s[i] == samples[i].state && v[i] == ValueAt(samples[i].raws[lid], f);
  }

  // ---- consistency ----------------------------------------------------- //

  ghost predicate Injective(m: map<string, nat>) {
    forall x, y | x in m && y in m && m[x] == m[y] :: x == y
  }

  /** A map has as many values as keys exactly when no two keys share one. */
  lemma {:induction false} CountsMatchIffInjective(m: map<string, nat>)
    ensures |m.Values| <= |m.Keys|
    ensures |m.Values| == |m.Keys| <==> Injective(m)
    decreases |m.Keys|
  {
    if m.Keys == {} {
      assert m.Values == {};
    } else {
      var x :| x in m.Keys;
      var rest := m - {x};
      assert m.Keys == rest.Keys + {x};
      assert m.Values == rest.Values + {m[x]} by {
        forall v | v in m.Values ensures v in rest.Values + {m[x]} {
          var k :| k in m && m[k] == v;
          if k != x { assert rest[k] == v; }
        }
      }
      CountsMatchIffInjective(rest);
      if m[x] in rest.Values {
        assert m.Values == rest.Values;
        var y :| y in rest && rest[y] == m[x];
        assert m[y] == m[x] && y != x;
      } else {
        assert Injective(m) <==> Injective(rest) by {
          if Injective(rest) {
            forall a, b | a in m && b in m && m[a] == m[b] ensures a == b {
              assert a != x ==> a in rest && rest[a] in rest.Values;
              assert b != x ==> b in rest && rest[b] in rest.Values;
            }
          }
          if Injective(m) {
            assert forall a, b | a in rest && b in rest && rest[a] == rest[b] :: m[a] == m[b];
          }
        }
      }
    }
  }

  method Consistent(states: seq<string>, vals: seq<nat>) returns (r: bool)
    requires |states| == |vals|
    ensures r <==> Separating(states, vals)
  {
    var byState: map<string, nat> := map[];
    for i := 0 to |states|
      invariant forall k | 0 <= k < i :: states[k] in byState && byState[states[k]] == vals[k]
      invariant forall s | s in byState :: exists k :: 0 <= k < i && states[k] == s
    {
      if states[i] in byState {
        if byState[states[i]] != vals[i] {
          return false;
        }
      } else {
        byState := byState[states[i] := vals[i]];
      }
    }
    CountsMatchIffInjective(byState);
    r := |byState.Values| == |byState.Keys|;
    if !r {
      var x, y :| x in byState && y in byState && byState[x] == byState[y] && x != y;
      var i :| 0 <= i < |states| && states[i] == x;
      var j :| 0 <= j < |states| && states[j] == y;
      assert vals[i] == vals[j];
    }
  }

  /** A bit can tell at most two states apart: of any three readings two show the same state. */
  lemma BitSeparatesTwoStates(samples: seq<Sample>, lid: string, f: Field, i: nat, j: nat, k: nat)
    requires f.BitAt? && Separates(samples, lid, f)
    requires i < |samples| && j < |samples| && k < |samples|
    ensures samples[i].state == samples[j].state || samples[j].state == samples[k].state
         || samples[i].state == samples[k].state
  {
    var s, v := States(samples), Values(samples, lid, f);
    assert s[i] == s[j] <==> v[i] == v[j];
    assert s[j] == s[k] <==> v[j] == v[k];
    assert s[i] == s[k] <==> v[i] == v[k];
  }

  // ---- the search ------------------------------------------------------ //

  /** `best` beats, or precedes as an equal, everything in `seen` that separates. */
  ghost predicate Beats(best: Option<Found>, samples: seq<Sample>, lids: seq<string>, seen: set<Found>) {
    forall c | c in seen && c.index < |lids| && Separates(samples, lids[c.index], c.field) ::
      best.Some? && !Less(c.field, best.value.field) && (c.field == best.value.field ==> best.value.index <= c.index)
  }

  ghost predicate Genuine(best: Option<Found>, samples: seq<Sample>, lids: seq<string>, upTo: nat) {
    best.Some? ==> best.value.index <= upTo && best.value.index < |lids|
                   && Separates(samples, lids[best.value.index], best.value.field)
  }

  /** Try one field: keep it if it separates and ranks strictly before the best so far. */
  method Try(samples: seq<Sample>, lids: seq<string>, best: Option<Found>, c: Found, ghost seen: set<Found>)
    returns (better: Option<Found>)
    requires c.index < |lids| && Readable(samples, lids[c.index], c.field)
    requires Beats(best, samples, lids, seen) && Genuine(best, samples, lids, c.index)
    ensures Beats(better, samples, lids, seen + {c}) && Genuine(better, samples, lids, c.index)
    ensures better == best || better == Some(c)
  {
    better := best;
    var consistent := Consistent(States(samples), Values(samples, lids[c.index], c.field));
    if consistent && (best.None? || Less(c.field, best.value.field)) {
      better := Some(c);
    }
  }

  method MinLength(samples: seq<Sample>, lid: string) returns (n: nat)
    requires samples != [] && forall i | 0 <= i < |samples| :: lid in samples[i].raws
    ensures forall i | 0 <= i < |samples| :: n <= |samples[i].raws[lid]|
    ensures exists i :: 0 <= i < |samples| && n == |samples[i].raws[lid]|
  {
    n := |samples[0].raws[lid]|;
    for i := 1 to |samples|
      invariant forall k | 0 <= k < i :: n <= |samples[k].raws[lid]|
      invariant exists k :: 0 <= k < |samples| && n == |samples[k].raws[lid]|
    {
      if |samples[i].raws[lid]| < n {
        n := |samples[i].raws[lid]|;
      }
    }
  }

  /** Everything at this offset: eight bits, and the whole byte unless the best is already here. */
  method SearchByte(samples: seq<Sample>, lids: seq<string>, best: Option<Found>, index: nat, off: nat, ghost seen: set<Found>)
    returns (better: Option<Found>, ghost seen': set<Found>)
    requires index < |lids| && Readable(samples, lids[index], ByteAt(off))
    requires Beats(best, samples, lids, seen) && Genuine(best, samples, lids, index)
    ensures Beats(better, samples, lids, seen') && Genuine(better, samples, lids, index)
    ensures seen <= seen' && Found(index, ByteAt(off)) in seen'
    ensures forall bit | 0 <= bit < 8 :: Found(index, BitAt(off, bit)) in seen'
  {
    better, seen' := best, seen;
    for bit := 0 to 8
      invariant Beats(better, samples, lids, seen') && Genuine(better, samples, lids, index)
      invariant seen <= seen' && forall b | 0 <= b < bit :: Found(index, BitAt(off, b)) in seen'
    {
      hide Separates;
      better := Try(samples, lids, better, Found(index, BitAt(off, bit)), seen');
      seen' := seen' + {Found(index, BitAt(off, bit))};
    }
    if better.Some? && lids[better.value.index] == lids[index] && better.value.field.off == off {
      // Already a hit for this byte: the whole byte ranks no better.
    } else {
      better := Try(samples, lids, better, Found(index, ByteAt(off)), seen');
    }
    seen' := seen' + {Found(index, ByteAt(off))};
  }

  /** What could be found under this candidate. */
  ghost predicate Covered(samples: seq<Sample>, lids: seq<string>, index: nat, seen: set<Found>)
    requires index < |lids|
  {
    forall f | Separates(samples, lids[index], f) :: Found(index, f) in seen
  }

  method SearchLid(samples: seq<Sample>, lids: seq<string>, best: Option<Found>, index: nat, ghost seen: set<Found>)
    returns (better: Option<Found>, ghost seen': set<Found>)
    requires index < |lids| && samples != []
    requires Beats(best, samples, lids, seen) && Genuine(best, samples, lids, index)
    ensures Beats(better, samples, lids, seen') && Genuine(better, samples, lids, index)
    ensures seen <= seen' && Covered(samples, lids, index, seen')
  {
    better, seen' := best, seen;
    var lid := lids[index];
    if exists i | 0 <= i < |samples| :: lid !in samples[i].raws {
      return;
    }
    var n := MinLength(samples, lid);
    for off := 0 to n
      invariant Beats(better, samples, lids, seen') && Genuine(better, samples, lids, index)
      invariant seen <= seen'
      invariant forall o | 0 <= o < off :: Found(index, ByteAt(o)) in seen'
      invariant forall o, bit | 0 <= o < off && 0 <= bit < 8 :: Found(index, BitAt(o, bit)) in seen'
    {
      better, seen' := SearchByte(samples, lids, better, index, off, seen');
    }
    forall f | Separates(samples, lid, f) ensures Found(index, f) in seen' {
      var i :| 0 <= i < |samples| && n == |samples[i].raws[lid]|;
      assert Fits(samples[i].raws[lid], f);
    }
  }

  /**
   Nothing that separates comes before this: neither a bit at a lower offset, at the same offset a lower bit,
   for the same bit an earlier identifier; nor, if this is a byte, any bit at all, or a byte at a lower offset
   or under an earlier identifier.
   */
  ghost predicate ComesFirst(samples: seq<Sample>, lids: seq<string>, best: Found) {
    && (forall k, off, bit | 0 <= k < |lids| && Separates(samples, lids[k], BitAt(off, bit)) ::
          best.field.BitAt?
          && (best.field.off < off
              || (best.field.off == off && best.field.bit < bit)
              || (best.field.off == off && best.field.bit == bit && best.index <= k)))
    && (forall k, off | 0 <= k < |lids| && Separates(samples, lids[k], ByteAt(off)) ::
          best.field.BitAt? || best.field.off < off || (best.field.off == off && best.index <= k))
  }

  /** Whether two readings show different states. */
  predicate TwoStates(samples: seq<Sample>) {
    exists i, j | 0 <= i < |samples| && 0 <= j < |samples| :: samples[i].state != samples[j].state
  }

  /**
   The early skip loses nothing: the result is the least separating field over all candidates - a whole
   byte only when no bit separates - under the earliest candidate that has it, and there is none exactly
   when there are not two states or nothing separates them.
   */
  method Search(samples: seq<Sample>, lids: seq<string>) returns (best: Option<Found>)
    ensures best.Some? ==> TwoStates(samples) && best.value.index < |lids|
                           && Separates(samples, lids[best.value.index], best.value.field)
    ensures best.Some? ==> forall k, f | 0 <= k < |lids| && Separates(samples, lids[k], f) ::
              !Less(f, best.value.field) && (f == best.value.field ==> best.value.index <= k)
    ensures best.None? <==> !TwoStates(samples) || forall k, f | 0 <= k < |lids| :: !Separates(samples, lids[k], f)
    ensures best.Some? ==> ComesFirst(samples, lids, best.value)
  {
    best := None;
    if !TwoStates(samples) {
      return;
    }
    ghost var seen: set<Found> := {};
    for index := 0 to |lids|
      invariant Beats(best, samples, lids, seen) && Genuine(best, samples, lids, index)
      invariant forall k | 0 <= k < index :: Covered(samples, lids, k, seen)
    {
      ghost var before := seen;
      best, seen := SearchLid(samples, lids, best, index, seen);
      forall k | 0 <= k < index ensures Covered(samples, lids, k, seen) {
        assert Covered(samples, lids, k, before);
      }
    }
    forall k, f | 0 <= k < |lids| && Separates(samples, lids[k], f) ensures Found(k, f) in seen {
      assert Covered(samples, lids, k, seen);
    }
  }

  /**
   The values a separating field shows for the states, and back: every reading's state is listed with its
   value, nothing else is, and no two states share one.
   */
  method MappingOf(samples: seq<Sample>, lid: string, f: Field) returns (mapping: map<string, nat>)
    requires Separates(samples, lid, f)
    ensures forall i | 0 <= i < |samples| ::
              samples[i].state in mapping && mapping[samples[i].state] == ValueAt(samples[i].raws[lid], f)
    ensures forall x | x in mapping :: exists i :: 0 <= i < |samples| && samples[i].state == x
    ensures Injective(mapping)
  {
    mapping := map[];
    for i := 0 to |samples|
      invariant forall k | 0 <= k < i ::
                  samples[k].state in mapping && mapping[samples[k].state] == ValueAt(samples[k].raws[lid], f)
      invariant forall x | x in mapping :: exists k :: 0 <= k < i && samples[k].state == x
    {
      forall k | 0 <= k < i && samples[k].state == samples[i].state
        ensures ValueAt(samples[k].raws[lid], f) == ValueAt(samples[i].raws[lid], f)
      {
        SameStateSameValue(samples, lid, f, k, i);
      }
      mapping := mapping[samples[i].state := ValueAt(samples[i].raws[lid], f)];
    }
    forall x, y | x in mapping && y in mapping && mapping[x] == mapping[y] ensures x == y {
      var i :| 0 <= i < |samples| && samples[i].state == x;
      var j :| 0 <= j < |samples| && samples[j].state == y;
      SameStateSameValue(samples, lid, f, i, j);
    }
  }

  lemma SameStateSameValue(samples: seq<Sample>, lid: string, f: Field, i: nat, j: nat)
    requires Separates(samples, lid, f) && i < |samples| && j < |samples|
    ensures samples[i].state == samples[j].state
       <==> ValueAt(samples[i].raws[lid], f) == ValueAt(samples[j].raws[lid], f)
  {
    var s, v := States(samples), Values(samples, lid, f);
    assert s[i] == s[j] <==> v[i] == v[j];
  }

  /** The ranking is a strict total order in which every bit comes before every byte. */
  lemma BitsRankBeforeBytes(f: Field, g: Field, h: Field)
    ensures f.BitAt? && g.ByteAt? ==> Less(f, g)
    ensures Less(f, g) || Less(g, f) || f == g
    ensures !(Less(f, g) && Less(g, f))
    ensures Less(f, g) && Less(g, h) ==> Less(f, h)
  {
  }
}
