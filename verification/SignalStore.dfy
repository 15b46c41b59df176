/**
 The declarative signal store: one record file per module, a cache of decoded signals in front of it,
 and the mapper's relabelling of single bits on top.
 */
module SignalStore {
  import opened Numerals
  import opened Wrappers

  /** An identifier as written in a record: a number in some spelling. */
  datatype Lid = Lid(value: nat, spelling: string)

  datatype Kind = Bit | Plain(name: string)

  datatype Record = Record(lid: Lid, offset: int, name: string, kind: Kind, bit: Option<int>, rest: string)

  /** A decoded record, its identifier a number. */
  datatype Signal = Signal(lid: nat, offset: int, name: string, kind: Kind, bit: Option<int>, rest: string)

  datatype Key = Key(lid: nat, offset: int, name: string)

  /** The one spelling records are written back with: upper-case hexadecimal, at least two digits. */
  function Canonical(lid: Lid): (c: Lid)
    ensures c.value == lid.value
  {
    Lid(lid.value, if lid.value < 16 then "0" + Hex(lid.value) else Hex(lid.value))
  }

  function Hex(n: nat): string {
    Numeral(n, 16)
  }

  /**
   The canonical spelling is two or more upper-case hexadecimal digits that read back as the number, so two
   identifiers have the same one exactly if they are the same number.
   */
  lemma CanonicalReadsBack(lid: Lid, other: Lid)
    ensures Value(Canonical(lid).spelling, 16) == lid.value
    ensures |Canonical(lid).spelling| >= 2 && forall c | c in Canonical(lid).spelling :: c in DIGITS
    ensures Canonical(lid).spelling == Canonical(other).spelling <==> lid.value == other.value
  {
    SpellingReadsBack(lid);
    SpellingReadsBack(other);
  }

  lemma SpellingReadsBack(lid: Lid)
    ensures Value(Canonical(lid).spelling, 16) == lid.value
    ensures |Canonical(lid).spelling| >= 2 && forall c | c in Canonical(lid).spelling :: c in DIGITS
  {
    hide Numeral, Value, DIGITS;
    NumeralReadsBack(lid.value, 16);
    OnlyDigits(lid.value, 16);
    if lid.value < 16 {
      LeadingZero(Hex(lid.value));
    }
  }

  lemma LeadingZero(s: string)
    ensures Value("0" + s, 16) == Value(s, 16) && '0' in DIGITS
  {
    assert DIGITS[0] == '0';
    if s == [] {
      assert Value("0"[..0], 16) == 0;
    } else {
      LeadingZero(s[..|s| - 1]);
      assert ("0" + s)[..|s|] == "0" + s[..|s| - 1];
    }
  }

  function KeyOf(r: Record): Key {
    Key(r.lid.value, r.offset, r.name)
  }

  function Decode(r: Record): Signal {
    Signal(r.lid.value, r.offset, r.name, r.kind, r.bit, r.rest)
  }

  function DecodeAll(rows: seq<Record>): seq<Signal> {
    seq(|rows|, i requires 0 <= i < |rows| => Decode(rows[i]))
  }

  /** Decoding keeps everything but the spelling of the identifier. */
  lemma DecodeKeepsAll(r: Record, q: Record)
    ensures Decode(r) == Decode(q) <==> r.(lid := q.lid) == q && r.lid.value == q.lid.value
    ensures var d := Decode(r);
            d.lid == r.lid.value && d.offset == r.offset && d.name == r.name && d.kind == r.kind && d.bit == r.bit
  {
  }

  ghost predicate UniqueKeys(rows: seq<Record>) {
    forall i, j | 0 <= i < j < |rows| :: KeyOf(rows[i]) != KeyOf(rows[j])
  }

  // ---- upsert ---------------------------------------------------------- //

  /** Replace the first record with the same key in place, or append. */
  function Upserted(rows: seq<Record>, r: Record): seq<Record> {
    if rows == [] then [r]
    else if KeyOf(rows[0]) == KeyOf(r) then [r] + rows[1..]
    else [rows[0]] + Upserted(rows[1..], r)
  }

  /** Where the record with this key stands, or where a new one would go. */
  ghost predicate Slot(rows: seq<Record>, k: Key, i: nat) {
    i <= |rows| && (i < |rows| ==> KeyOf(rows[i]) == k) && forall j | 0 <= j < i :: KeyOf(rows[j]) != k
  }

  /** An upsert changes the slot of its own key and nothing else. */
  lemma {:induction false} UpsertChangesOnlyItsKey(rows: seq<Record>, r: Record) returns (i: nat)
    ensures Slot(rows, KeyOf(r), i)
    ensures Upserted(rows, r) == rows[..i] + [r] + (if i < |rows| then rows[i + 1..] else [])
  {
    if rows == [] || KeyOf(rows[0]) == KeyOf(r) {
      i := 0;
    } else {
      var k := UpsertChangesOnlyItsKey(rows[1..], r);
      i := k + 1;
      assert rows[..i] == [rows[0]] + rows[1..][..k];
    }
  }

  lemma UpsertKeepsKeysUnique(rows: seq<Record>, r: Record)
    requires UniqueKeys(rows)
    ensures UniqueKeys(Upserted(rows, r))
    ensures forall x :: x in Upserted(rows, r) <==> x == r || (x in rows && KeyOf(x) != KeyOf(r))
  {
    hide Upserted;
    var i := UpsertChangesOnlyItsKey(rows, r);
    var out := Upserted(rows, r);
    assert out[i] == r;
    assert forall j | 0 <= j < |rows| && j != i :: out[j] == rows[j];
    forall x | x in rows && KeyOf(x) != KeyOf(r) ensures x in out {
      var j :| 0 <= j < |rows| && rows[j] == x;
      assert out[j] == x;
    }
  }

  // ---- remove ---------------------------------------------------------- //

  /** At this identifier and offset, and, if a bit is given, the bit field with that index. */
  predicate Matches(r: Record, lid: nat, offset: int, bit: Option<int>) {
    r.lid.value == lid && r.offset == offset
    && (bit.None? || (r.kind.Bit? && (if r.bit.Some? then r.bit.value else -1) == bit.value))
  }

  function Kept(rows: seq<Record>, lid: nat, offset: int, bit: Option<int>): seq<Record> {
    if rows == [] then []
    else (if Matches(rows[0], lid, offset, bit) then [] else [rows[0]]) + Kept(rows[1..], lid, offset, bit)
  }

  lemma KeptOneMore(rows: seq<Record>, lid: nat, offset: int, bit: Option<int>)
    requires rows != []
    ensures Kept(rows, lid, offset, bit)
         == (if Matches(rows[0], lid, offset, bit) then [] else [rows[0]]) + Kept(rows[1..], lid, offset, bit)
  {
  }

  lemma KeptFromNext(rows: seq<Record>, i: nat, lid: nat, offset: int, bit: Option<int>, kept: seq<Record>)
    requires i < |rows|
    ensures kept + Kept(rows[i..], lid, offset, bit)
         == kept + (if Matches(rows[i], lid, offset, bit) then [] else [rows[i]]) + Kept(rows[i + 1..], lid, offset, bit)
  {
    hide Matches, Kept;
    KeptOneMore(rows[i..], lid, offset, bit);
    assert rows[i..][0] == rows[i] && rows[i..][1..] == rows[i + 1..];
  }

  lemma NothingKept(lid: nat, offset: int, bit: Option<int>)
    ensures Kept([], lid, offset, bit) == []
  {
  }

  /** An increasing choice of positions in `rows` that spells out `kept`. */
  ghost predicate Picks(rows: seq<Record>, kept: seq<Record>, at: seq<nat>) {
    && |at| == |kept|
    && (forall i, j | 0 <= i < j < |at| :: at[i] < at[j])
    && (forall i | 0 <= i < |at| :: at[i] < |rows| && kept[i] == rows[at[i]])
  }

  /** Positions in a list, moved behind one more element in front of it. */
  function Shifted(at: seq<nat>): (s: seq<nat>)
    ensures |s| == |at| && forall i | 0 <= i < |at| :: s[i] == at[i] + 1
  {
    seq(|at|, i requires 0 <= i < |at| => at[i] + 1)
  }

  lemma PicksBehind(r: Record, rows: seq<Record>, kept: seq<Record>, at: seq<nat>)
    requires Picks(rows, kept, at)
    ensures Picks([r] + rows, kept, Shifted(at))
  {
    hide Shifted;
    var all, s := [r] + rows, Shifted(at);
    forall i | 0 <= i < |s| ensures s[i] < |all| && kept[i] == all[s[i]] {
      assert all[at[i] + 1] == rows[at[i]];
    }
  }

  lemma PicksFirst(rows: seq<Record>, kept: seq<Record>, at: seq<nat>)
    requires rows != [] && Picks(rows, kept, at) && forall i | 0 <= i < |at| :: at[i] > 0
    ensures Picks(rows, [rows[0]] + kept, [0] + at)
  {
    var more, all := [0] + at, [rows[0]] + kept;
    forall i | 0 <= i < |more| ensures more[i] < |rows| && all[i] == rows[more[i]] {
      if i > 0 {
        assert more[i] == at[i - 1] && all[i] == kept[i - 1];
      }
    }
    forall i, j | 0 <= i < j < |more| ensures more[i] < more[j] {
      assert more[j] == at[j - 1];
      assert i > 0 ==> more[i] == at[i - 1];
    }
  }

  /** A removal keeps the other records in their order. */
  lemma {:induction false} RemovalKeepsOrder(rows: seq<Record>, lid: nat, offset: int, bit: Option<int>)
    returns (at: seq<nat>)
    ensures Picks(rows, Kept(rows, lid, offset, bit), at)
  {
    if rows == [] {
      at := [];
    } else {
      hide Matches, Kept, Shifted, Picks;
      KeptOneMore(rows, lid, offset, bit);
      var rest := RemovalKeepsOrder(rows[1..], lid, offset, bit);
      PicksBehind(rows[0], rows[1..], Kept(rows[1..], lid, offset, bit), rest);
      assert [rows[0]] + rows[1..] == rows;
      at := Shifted(rest);
      if Matches(rows[0], lid, offset, bit) {
        assert [] + Kept(rows[1..], lid, offset, bit) == Kept(rows[1..], lid, offset, bit);
      } else {
        PicksFirst(rows, Kept(rows[1..], lid, offset, bit), at);
        at := [0] + at;
      }
    }
  }

  /** The bit index a record is removed by: its own, -1 if it has none. */
  function BitIndex(r: Record): int {
    match r.bit
    case Some(b) => b
    case None => -1
  }

  /**
   It drops exactly the records at the identifier and offset - all of them, or, if a bit is given, the bit
   fields with that index.
   */
  lemma {:induction false} RemovalDropsExactlyMatches(rows: seq<Record>, lid: nat, offset: int, bit: Option<int>)
    ensures forall x :: x in Kept(rows, lid, offset, bit) <==>
              x in rows && !(x.lid.value == lid && x.offset == offset
                             && (bit == None || (x.kind == Bit && Some(BitIndex(x)) == bit)))
  {
    if rows != [] {
      RemovalDropsExactlyMatches(rows[1..], lid, offset, bit);
      assert forall x :: x in rows <==> x == rows[0] || x in rows[1..];
    }
  }

  lemma {:induction false} NothingRemoved(rows: seq<Record>, lid: nat, offset: int, bit: Option<int>)
    ensures |Kept(rows, lid, offset, bit)| <= |rows|
    ensures |Kept(rows, lid, offset, bit)| == |rows| ==> Kept(rows, lid, offset, bit) == rows
  {
    if rows != [] {
      NothingRemoved(rows[1..], lid, offset, bit);
    }
  }

  lemma RemovalKeepsKeysUnique(rows: seq<Record>, lid: nat, offset: int, bit: Option<int>)
    requires UniqueKeys(rows)
    ensures UniqueKeys(Kept(rows, lid, offset, bit))
  {
    hide Kept;
    var at := RemovalKeepsOrder(rows, lid, offset, bit);
    var kept := Kept(rows, lid, offset, bit);
    forall i, j | 0 <= i < j < |kept| ensures KeyOf(kept[i]) != KeyOf(kept[j]) {
      assert at[i] < at[j];
    }
  }

  // ---- the mapper's labels --------------------------------------------- //

  /** The bit fields of one byte: every bit has at most one name, every name at most one bit. */
  ghost predicate OneToOne(rows: seq<Record>, lid: nat, offset: int) {
    forall r, s | r in rows && s in rows && BitField(r, lid, offset) && BitField(s, lid, offset) ::
      (r.bit == s.bit <==> r == s) && (r.name == s.name <==> r == s)
  }

  predicate BitField(r: Record, lid: nat, offset: int) {
    r.kind.Bit? && r.lid.value == lid && r.offset == offset && r.bit.Some?
  }

  /** Label a bit: drop what it was called before, then store the new name; no name just clears it. */
  function Labelled(rows: seq<Record>, lid: Lid, offset: int, bit: int, name: string, rest: string): seq<Record> {
    var cleared := Kept(rows, lid.value, offset, Some(bit));
    if name == "" then cleared
    else Upserted(cleared, Record(Canonical(lid), offset, name, Bit, Some(bit), rest))
  }

  /** Labelling keeps names and bits one to one in every byte, and leaves other bytes alone. */
  lemma LabellingKeepsOneToOne(rows: seq<Record>, lid: Lid, offset: int, bit: int, name: string, rest: string,
                               lid': nat, offset': int)
    requires UniqueKeys(rows) && OneToOne(rows, lid', offset')
    ensures var out := Labelled(rows, lid, offset, bit, name, rest);
            && UniqueKeys(out) && OneToOne(out, lid', offset')
            && (lid.value != lid' || offset != offset' ==>
                  forall r :: r in out && r.lid.value == lid' && r.offset == offset'
                         <==> r in rows && r.lid.value == lid' && r.offset == offset')
            && forall r :: r in out && BitField(r, lid.value, offset) && r.bit == Some(bit) ==>
                           name != "" && r.name == name
  {
    hide Canonical, Kept, Upserted;
    RemovalKeepsKeysUnique(rows, lid.value, offset, Some(bit));
    RemovalDropsExactlyMatches(rows, lid.value, offset, Some(bit));
    if name != "" {
      UpsertKeepsKeysUnique(Kept(rows, lid.value, offset, Some(bit)),
                            Record(Canonical(lid), offset, name, Bit, Some(bit), rest));
    }
  }

  /** The bit fields of one bit. */
  predicate IsBit(r: Record, lid: nat, offset: int, bit: int) {
    BitField(r, lid, offset) && r.bit == Some(bit)
  }

  /**
   Exactly what a labelling leaves: one record for the bit, with its new name, or none if the name is empty;
   and every other record, those of the byte's other bits too, unless the new name takes its key.
   */
  lemma LabellingStoresName(rows: seq<Record>, lid: Lid, offset: int, bit: int, name: string, rest: string)
    requires UniqueKeys(rows)
    ensures var out, stored := Labelled(rows, lid, offset, bit, name, rest),
                               Record(Canonical(lid), offset, name, Bit, Some(bit), rest);
            && (forall r :: r in out && IsBit(r, lid.value, offset, bit) <==> name != "" && r == stored)
            && (forall i, j | 0 <= i < |out| && 0 <= j < |out| && out[i] == out[j] :: i == j)
            && (forall r | r in rows && !(r.kind == Bit && r.lid.value == lid.value && r.offset == offset && BitIndex(r) == bit)
                           && (name == "" || KeyOf(r) != Key(lid.value, offset, name)) :: r in out)
            && (forall r | r in out :: r in rows || (name != "" && r == stored))
  {
    hide Canonical, Kept, Upserted;
    RemovalKeepsKeysUnique(rows, lid.value, offset, Some(bit));
    RemovalDropsExactlyMatches(rows, lid.value, offset, Some(bit));
    if name != "" {
      UpsertKeepsKeysUnique(Kept(rows, lid.value, offset, Some(bit)),
                            Record(Canonical(lid), offset, name, Bit, Some(bit), rest));
    }
  }

  /**
   Storing a bit's name without clearing the bit first keeps names and bits one to one exactly when no
   other name is stored for that bit.
   */
  lemma UpsertAloneKeepsOneToOneIff(rows: seq<Record>, r: Record)
    requires UniqueKeys(rows) && BitField(r, r.lid.value, r.offset) && OneToOne(rows, r.lid.value, r.offset)
    ensures OneToOne(Upserted(rows, r), r.lid.value, r.offset)
       <==> forall s | s in rows && BitField(s, r.lid.value, r.offset) && s.bit == r.bit :: s.name == r.name
  {
    hide Upserted;
    UpsertKeepsKeysUnique(rows, r);
  }

  // ---- the store with its cache ---------------------------------------- //

  class Store {
    /** The record files by module; a missing file holds no records. */
    var files: map<string, seq<Record>>
    var cache: map<string, seq<Signal>>

    function Rows(m: string): seq<Record>
      reads this
    {
      if m in files then files[m] else []
    }

    /** The cache never disagrees with the files. */
    ghost predicate Valid()
      reads this
    {
      forall m | m in cache :: cache[m] == DecodeAll(Rows(m))
    }

    constructor (files: map<string, seq<Record>>)
      ensures Valid() && this.files == files && cache == map[]
    {
      this.files, cache := files, map[];
    }

    method LoadRecords(m: string) returns (rows: seq<Record>)
      ensures rows == Rows(m)
    {
      if m !in files {
        return [];
      }
      return files[m];
    }

    /** What a reader sees is always the decoded file. */
    method LoadSignals(m: string) returns (signals: seq<Signal>)
      requires Valid()
      modifies this`cache
      ensures Valid() && signals == DecodeAll(Rows(m)) && cache == old(cache)[m := signals]
    {
      if m !in cache {
        var rows := LoadRecords(m);
        cache := cache[m := DecodeAll(rows)];
      }
      signals := cache[m];
    }

    /** Replace the file in one step and forget what was cached, unless writing fails. */
    method Rewrite(m: string, rows: seq<Record>, fails: bool) returns (ok: bool)
      requires Valid()
      modifies this
      ensures Valid() && ok == !fails
      ensures ok ==> files == old(files)[m := rows] && cache == old(cache) - {m}
      ensures !ok ==> files == old(files) && cache == old(cache)
    {
      if fails {
        return false;
      }
      files := files[m := rows];
      cache := cache - {m};
      return true;
    }

    method UpsertField(m: string, r: Record, fails: bool) returns (ok: bool)
      requires Valid()
      modifies this
      ensures Valid() && ok == !fails
      ensures files == if ok then old(files)[m := Upserted(old(Rows(m)), r.(lid := Canonical(r.lid)))] else old(files)
      ensures old(UniqueKeys(Rows(m))) ==> UniqueKeys(Rows(m))
    {
      hide Canonical;
      var rec := r.(lid := Canonical(r.lid));
      var rows := LoadRecords(m);
      ghost var before := rows;
      var i := 0;
      while i < |rows| && KeyOf(rows[i]) != KeyOf(rec)
        invariant i <= |rows| && forall j | 0 <= j < i :: KeyOf(rows[j]) != KeyOf(rec)
      {
        i := i + 1;
      }
      if i < |rows| {
        rows := rows[i := rec];
      } else {
        rows := rows + [rec];
      }
      ghost var slot := UpsertChangesOnlyItsKey(before, rec);
      assert slot == i;
      assert rows == Upserted(before, rec);
      if UniqueKeys(before) {
        UpsertKeepsKeysUnique(before, rec);
      }
      ok := Rewrite(m, rows, fails);
    }

    method Filter(rows: seq<Record>, lid: nat, offset: int, bit: Option<int>) returns (kept: seq<Record>)
      ensures kept == Kept(rows, lid, offset, bit)
    {
      hide Matches, Kept;
      kept := [];
      assert rows[0..] == rows && kept + Kept(rows, lid, offset, bit) == Kept(rows, lid, offset, bit);
      for i := 0 to |rows|
        invariant kept + Kept(rows[i..], lid, offset, bit) == Kept(rows, lid, offset, bit)
      {
        KeptFromNext(rows, i, lid, offset, bit, kept);
        if !Matches(rows[i], lid, offset, bit) {
          kept := kept + [rows[i]];
        }
      }
      NothingKept(lid, offset, bit);
      assert rows[|rows|..] == [] && kept + [] == kept;
    }

    method RemoveField(m: string, lid: Lid, offset: int, bit: Option<int>, fails: bool) returns (removed: nat, ok: bool)
      requires Valid()
      modifies this
      ensures Valid()
      ensures ok ==> Rows(m) == Kept(old(Rows(m)), lid.value, offset, bit) && removed == |old(Rows(m))| - |Rows(m)|
      ensures files == old(files) || files == old(files)[m := Kept(old(Rows(m)), lid.value, offset, bit)]
      ensures !ok ==> fails && files == old(files) && cache == old(cache)
      ensures old(UniqueKeys(Rows(m))) ==> UniqueKeys(Rows(m))
    {
      hide Kept;
      var rows := LoadRecords(m);
      var kept := Filter(rows, lid.value, offset, bit);
      NothingRemoved(rows, lid.value, offset, bit);
      removed := |rows| - |kept|;
      ok := true;
      if UniqueKeys(rows) {
        RemovalKeepsKeysUnique(rows, lid.value, offset, bit);
      }
      if removed > 0 {
        ok := Rewrite(m, kept, fails);
      }
    }

    /** The mapper's label handler; if writing fails on the way, it ends there. */
    method Label(m: string, lid: Lid, offset: int, bit: int, name: string, rest: string,
                 clearFails: bool, storeFails: bool) returns (ok: bool)
      requires Valid()
      modifies this
      ensures Valid()
      ensures ok ==> Rows(m) == Labelled(old(Rows(m)), lid, offset, bit, name, rest)
      ensures !ok ==> (clearFails && files == old(files))
                      || (name != "" && storeFails && Rows(m) == Labelled(old(Rows(m)), lid, offset, bit, "", rest))
      ensures !clearFails && !storeFails ==> ok
      ensures files == old(files) || files == old(files)[m := Rows(m)]
      ensures ok && old(UniqueKeys(Rows(m))) ==>
                UniqueKeys(Rows(m))
                && forall r :: r in Rows(m) && IsBit(r, lid.value, offset, bit) <==>
                         name != "" && r == Record(Canonical(lid), offset, name, Bit, Some(bit), rest)
    {
      hide Canonical, Kept, Upserted, IsBit;
      if UniqueKeys(Rows(m)) {
        LabellingStoresName(Rows(m), lid, offset, bit, name, rest);
      }
      var removed;
      removed, ok := RemoveField(m, lid, offset, Some(bit), clearFails);
      if ok && name != "" {
        ok := UpsertField(m, Record(lid, offset, name, Bit, Some(bit), rest), storeFails);
      }
    }
  }
}
