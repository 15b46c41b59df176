/**
 Decoding bit-coded fault blocks: the Python table decoder, the generated browser map, and the browser
 decoder driven by that map.
 */
module Faults {
  import opened Numerals
  import opened Sequences

  type Block = seq<bv8>

  const FAULT_BLOCK_LEN := 35

  /** A row of the Python table: a byte offset and a mask. */
  datatype Fault = Fault(offset: nat, mask: bv8, name: string)

  /** A row of the browser map: the key "offset.bit" and the text. */
  datatype Entry = Entry(offset: nat, bit: nat, name: string)

  /** Something reported, with the bit it is reported for. */
  datatype Report = Report(offset: nat, bit: nat, text: string)

  // ---- bits ------------------------------------------------------------ //

  /** `1 << bit` */
  function Bit(bit: nat): bv8 {
    if bit == 0 then 0x01 else if bit == 1 then 0x02 else if bit == 2 then 0x04 else if bit == 3 then 0x08
    else if bit == 4 then 0x10 else if bit == 5 then 0x20 else if bit == 6 then 0x40 else if bit == 7 then 0x80 else 0
  }

  lemma BitIsShift(bit: nat)
    requires bit < 8
    ensures Bit(bit) == 1 << bit
  {
  }

  predicate IsSet(b: bv8, bit: nat) {
    b & Bit(bit) != 0
  }

  /** What is left of a byte without the bits of a mask. */
  function Without(b: bv8, mask: bv8): bv8 {
    b & !mask
  }

  /** A mask with one more bit. */
  function With(mask: bv8, bit: nat): bv8 {
    mask | Bit(bit)
  }

  /** `int.bit_length` */
  function BitLength(m: bv8): nat {
    if m >= 0x80 then 8 else if m >= 0x40 then 7 else if m >= 0x20 then 6 else if m >= 0x10 then 5
    else if m >= 0x08 then 4 else if m >= 0x04 then 3 else if m >= 0x02 then 2 else if m >= 0x01 then 1 else 0
  }

  lemma OneMoreBit(m: bv8, b: nat, b': nat)
    requires b < 8 && b' < 8
    ensures IsSet(With(m, b), b') <==> IsSet(m, b') || b == b'
  {
  }

  lemma ClearedBit(b: bv8, m: bv8, bit: nat)
    requires bit < 8
    ensures IsSet(Without(b, m), bit) <==> IsSet(b, bit) && !IsSet(m, bit)
  {
  }

  lemma SingleBit(m: bv8, b: nat)
    requires b < 8 && m == Bit(b)
    ensures BitLength(m) == b + 1
  {
  }

  // ---- what a decoder reports ------------------------------------------ //

  /** The text for a set bit without a name. */
  function Generic(offset: nat, bit: nat): string {
    "byte" + Numeral(offset, 10) + ".bit" + Numeral(bit, 10)
  }

  function FirstDot(s: string): (i: nat)
    ensures i <= |s|
  {
    if s == [] || s[0] == '.' then 0 else 1 + FirstDot(s[1..])
  }

  /** Offset and bit in such a text. */
  function ReadGeneric(text: string): (nat, nat) {
    var t := if |text| >= 4 then text[4..] else [];
    var dot := FirstDot(t);
    (Value(t[..dot], 10), if dot + 4 <= |t| then Value(t[dot + 4..], 10) else 0)
  }

  lemma {:induction false} DotAfter(a: string, b: string)
    requires '.' !in a && b != [] && b[0] == '.'
    ensures FirstDot(a + b) == |a|
  {
    if a == [] {
      assert a + b == b;
    } else {
      assert (a + b)[1..] == a[1..] + b;
      DotAfter(a[1..], b);
    }
  }

  /** The text says which bit it is for, so no two bits share one. */
  lemma GenericReadsBack(offset: nat, bit: nat)
    ensures ReadGeneric(Generic(offset, bit)) == (offset, bit)
  {
    hide Numeral, Value, FirstDot, DIGITS;
    var o, b := Numeral(offset, 10), Numeral(bit, 10);
    OnlyDigits(offset, 10);
    NumeralReadsBack(offset, 10);
    NumeralReadsBack(bit, 10);
    var text, t, tail := Generic(offset, bit), o + (".bit" + b), ".bit" + b;
    assert text == "byte" + t;
    assert text[4..] == t;
    DotAfter(o, tail);
    assert t[..|o|] == o && t[|o| + 4..] == b;
  }

  /** The bits of one byte that have a name. */
  function KnownMask(entries: seq<Entry>, offset: nat): bv8 {
    if entries == [] then 0
    else
      var e := entries[|entries| - 1];
      var before := KnownMask(entries[..|entries| - 1], offset);
      if e.offset == offset then With(before, e.bit) else before
  }

  /** The named bits that are set, in table order. */
  function Known(entries: seq<Entry>, block: Block): seq<Report> {
    if entries == [] then []
    else
      var e := entries[|entries| - 1];
      Known(entries[..|entries| - 1], block)
      + if e.offset < |block| && IsSet(block[e.offset], e.bit) then [Report(e.offset, e.bit, e.name)] else []
  }

  /** The set bits below `bit` of an already masked byte. */
  function UnknownInByte(offset: nat, unknown: bv8, bit: nat): seq<Report> {
    if bit == 0 then []
    else
      UnknownInByte(offset, unknown, bit - 1)
      + if IsSet(unknown, bit - 1) then [Report(offset, bit - 1, Generic(offset, bit - 1))] else []
  }

  /** The set bits without a name below `offset`, in order. */
  function Unknown(entries: seq<Entry>, block: Block, offset: nat): seq<Report>
    requires offset <= |block|
  {
    if offset == 0 then []
    else
      Unknown(entries, block, offset - 1)
      + UnknownInByte(offset - 1, Without(block[offset - 1], KnownMask(entries, offset - 1)), 8)
  }

  function Reports(entries: seq<Entry>, block: Block): seq<Report> {
    Known(entries, block) + Unknown(entries, block, |block|)
  }

  function Texts(reports: seq<Report>): seq<string> {
    seq(|reports|, i requires 0 <= i < |reports| => reports[i].text)
  }

  lemma TextsAppend(rs: seq<Report>, r: Report)
    ensures Texts(rs + [r]) == Texts(rs) + [r.text]
  {
  }

  /** The mask table built so far agrees with the first `i` rows. */
  ghost predicate MasksAgree(known: map<nat, bv8>, entries: seq<Entry>) {
    forall o: nat :: MaskIn(known, o) == KnownMask(entries, o)
  }

  function MaskIn(known: map<nat, bv8>, offset: nat): bv8 {
    if offset in known then known[offset] else 0
  }

  lemma OneMoreRow(entries: seq<Entry>, i: nat, known: map<nat, bv8>, block: Block)
    requires i < |entries| && MasksAgree(known, entries[..i])
    ensures var e := entries[i];
            && MasksAgree(known[e.offset := With(MaskIn(known, e.offset), e.bit)], entries[..i + 1])
            && Known(entries[..i + 1], block)
               == Known(entries[..i], block)
                  + if e.offset < |block| && IsSet(block[e.offset], e.bit) then [Report(e.offset, e.bit, e.name)] else []
  {
    hide With, IsSet;
    var e := entries[i];
    assert entries[..i + 1][..i] == entries[..i];
    var known' := known[e.offset := With(MaskIn(known, e.offset), e.bit)];
    forall o: nat ensures MaskIn(known', o) == KnownMask(entries[..i + 1], o) {
      assert MaskIn(known, o) == KnownMask(entries[..i], o);
    }
  }

  // ---- every set bit exactly once -------------------------------------- //

  ghost predicate Distinct(entries: seq<Entry>) {
    && (forall i | 0 <= i < |entries| :: entries[i].bit < 8)
    && (forall i, j | 0 <= i < j < |entries| :: entries[i].offset != entries[j].offset || entries[i].bit != entries[j].bit)
  }

  ghost predicate Named(entries: seq<Entry>, offset: nat, bit: nat) {
    exists i :: 0 <= i < |entries| && entries[i].offset == offset && entries[i].bit == bit
  }

  ghost predicate Mentions(rs: seq<Report>, offset: nat, bit: nat) {
    exists i :: 0 <= i < |rs| && rs[i].offset == offset && rs[i].bit == bit
  }

  /** No bit is reported twice. */
  ghost predicate NoRepeats(rs: seq<Report>) {
    forall i, j | 0 <= i < j < |rs| :: rs[i].offset != rs[j].offset || rs[i].bit != rs[j].bit
  }

  lemma MentionsConcat(a: seq<Report>, b: seq<Report>)
    ensures forall o: nat, bit: nat :: Mentions(a + b, o, bit) <==> Mentions(a, o, bit) || Mentions(b, o, bit)
  {
    forall o: nat, bit: nat ensures Mentions(a + b, o, bit) <==> Mentions(a, o, bit) || Mentions(b, o, bit) {
      if Mentions(a, o, bit) {
        var i :| 0 <= i < |a| && a[i].offset == o && a[i].bit == bit;
        assert (a + b)[i] == a[i];
      } else if Mentions(b, o, bit) {
        var i :| 0 <= i < |b| && b[i].offset == o && b[i].bit == bit;
        assert (a + b)[|a| + i] == b[i];
      }
    }
  }

  lemma MentionsNothing()
    ensures NoRepeats([])
    ensures forall o: nat, bit: nat :: !Mentions([], o, bit)
  {
  }

  lemma NoRepeatsConcat(a: seq<Report>, b: seq<Report>)
    requires NoRepeats(a) && NoRepeats(b)
    requires forall o: nat, bit: nat :: !(Mentions(a, o, bit) && Mentions(b, o, bit))
    ensures NoRepeats(a + b)
  {
    var all := a + b;
    forall i, j | 0 <= i < j < |all| ensures all[i].offset != all[j].offset || all[i].bit != all[j].bit {
      if i < |a| <= j {
        assert Mentions(a, all[i].offset, all[i].bit);
        assert all[j] == b[j - |a|];
        assert Mentions(b, all[j].offset, all[j].bit);
      }
    }
  }

  lemma {:induction false} KnownMaskIsNames(entries: seq<Entry>, offset: nat, bit: nat)
    requires Distinct(entries) && bit < 8
    ensures IsSet(KnownMask(entries, offset), bit) <==> Named(entries, offset, bit)
  {
    hide IsSet, With;
    if entries != [] {
      var before, e := entries[..|entries| - 1], entries[|entries| - 1];
      KnownMaskIsNames(before, offset, bit);
      OneMoreBit(KnownMask(before, offset), e.bit, bit);
      NamedOneMore(entries);
    } else {
      NothingMasked(bit);
    }
  }

  lemma NothingMasked(bit: nat)
    ensures !IsSet(0, bit)
  {
  }

  lemma {:induction false} KnownReports(entries: seq<Entry>, block: Block)
    requires Distinct(entries)
    ensures NoRepeats(Known(entries, block))
    ensures forall o: nat, bit: nat :: Mentions(Known(entries, block), o, bit) <==>
              Named(entries, o, bit) && o < |block| && IsSet(block[o], bit)
  {
    hide IsSet, Bit;
    if entries != [] {
      var before, e := entries[..|entries| - 1], entries[|entries| - 1];
      KnownReports(before, block);
      var more := if e.offset < |block| && IsSet(block[e.offset], e.bit) then [Report(e.offset, e.bit, e.name)] else [];
      MentionsConcat(Known(before, block), more);
      NamedOneMore(entries);
      SingleMention(more, e);
      assert !Named(before, e.offset, e.bit);
      NoRepeatsConcat(Known(before, block), more);
    }
  }

  lemma SingleMention(rs: seq<Report>, e: Entry)
    requires rs == [Report(e.offset, e.bit, e.name)] || rs == []
    ensures forall o: nat, bit: nat :: Mentions(rs, o, bit) <==> rs != [] && o == e.offset && bit == e.bit
  {
    assert rs != [] ==> rs[0].offset == e.offset && rs[0].bit == e.bit;
  }

  lemma NamedOneMore(entries: seq<Entry>)
    requires entries != []
    ensures var before, e := entries[..|entries| - 1], entries[|entries| - 1];
            forall o: nat, bit: nat :: Named(entries, o, bit) <==> Named(before, o, bit) || (o == e.offset && bit == e.bit)
  {
    var before, e := entries[..|entries| - 1], entries[|entries| - 1];
    forall o: nat, bit: nat
      ensures Named(entries, o, bit) <==> Named(before, o, bit) || (o == e.offset && bit == e.bit)
    {
      if Named(before, o, bit) {
        var i :| 0 <= i < |before| && before[i].offset == o && before[i].bit == bit;
        assert entries[i] == before[i];
      } else if o == e.offset && bit == e.bit {
        assert entries[|entries| - 1] == e;
      }
    }
  }

  lemma {:induction false} UnknownByteReports(offset: nat, unknown: bv8, bits: nat)
    ensures NoRepeats(UnknownInByte(offset, unknown, bits))
    ensures forall o: nat, bit: nat :: Mentions(UnknownInByte(offset, unknown, bits), o, bit) <==>
              o == offset && bit < bits && IsSet(unknown, bit)
  {
    hide IsSet, Bit, Generic;
    if bits > 0 {
      UnknownByteReports(offset, unknown, bits - 1);
      var e := Entry(offset, bits - 1, Generic(offset, bits - 1));
      var more := if IsSet(unknown, bits - 1) then [Report(offset, bits - 1, Generic(offset, bits - 1))] else [];
      MentionsConcat(UnknownInByte(offset, unknown, bits - 1), more);
      SingleMention(more, e);
      NoRepeatsConcat(UnknownInByte(offset, unknown, bits - 1), more);
    }
  }

  lemma {:induction false} UnknownReports(entries: seq<Entry>, block: Block, offset: nat)
    requires Distinct(entries) && offset <= |block|
    ensures NoRepeats(Unknown(entries, block, offset))
    ensures forall o: nat, bit: nat :: Mentions(Unknown(entries, block, offset), o, bit) <==>
              o < offset && bit < 8 && IsSet(block[o], bit) && !Named(entries, o, bit)
  {
    hide IsSet, Bit, Mentions, NoRepeats, Named, KnownMask, UnknownInByte, Without, Distinct;
    if offset == 0 {
      MentionsNothing();
    } else {
      var o := offset - 1;
      var known := KnownMask(entries, o);
      UnknownReports(entries, block, o);
      UnknownByteReports(o, Without(block[o], known), 8);
      MentionsConcat(Unknown(entries, block, o), UnknownInByte(o, Without(block[o], known), 8));
      NoRepeatsConcat(Unknown(entries, block, o), UnknownInByte(o, Without(block[o], known), 8));
      forall bit: nat | bit < 8
        ensures IsSet(Without(block[o], known), bit) <==> IsSet(block[o], bit) && !Named(entries, o, bit)
      {
        ClearedBit(block[o], known, bit);
        KnownMaskIsNames(entries, o, bit);
      }
    }
  }

  /** A decoder reports each set bit of the block exactly once, named or not. */
  lemma EachSetBitOnce(entries: seq<Entry>, block: Block)
    requires Distinct(entries)
    ensures NoRepeats(Reports(entries, block))
    ensures forall o: nat, bit: nat :: Mentions(Reports(entries, block), o, bit) <==>
              o < |block| && bit < 8 && IsSet(block[o], bit)
  {
    hide IsSet, Known, Unknown;
    KnownReports(entries, block);
    UnknownReports(entries, block, |block|);
    MentionsConcat(Known(entries, block), Unknown(entries, block, |block|));
    NoRepeatsConcat(Known(entries, block), Unknown(entries, block, |block|));
    assert forall o: nat, bit: nat | Named(entries, o, bit) :: bit < 8;
  }

  function ReportOf(e: Entry): Report {
    Report(e.offset, e.bit, e.name)
  }

  /** `rs` reports the entries at these increasing positions of the table, under their names. */
  ghost predicate Lists(entries: seq<Entry>, rs: seq<Report>, at: seq<nat>) {
    && |at| == |rs|
    && (forall i, j | 0 <= i < j < |at| :: at[i] < at[j])
    && (forall i | 0 <= i < |at| :: at[i] < |entries| && rs[i] == ReportOf(entries[at[i]]))
  }

  lemma ListsOneMore(entries: seq<Entry>, rs: seq<Report>, at: seq<nat>, e: Entry)
    requires Lists(entries, rs, at)
    ensures Lists(entries + [e], rs, at) && Lists(entries + [e], rs + [ReportOf(e)], at + [|entries|])
  {
    assert forall i | 0 <= i < |entries| :: (entries + [e])[i] == entries[i];
    assert (entries + [e])[|entries|] == e;
  }

  /** Named bits come first, in table order and under their names. */
  lemma {:induction false} KnownInTableOrder(entries: seq<Entry>, block: Block) returns (at: seq<nat>)
    ensures Lists(entries, Known(entries, block), at)
  {
    hide IsSet, Lists;
    if entries == [] {
      at := [];
      NothingListed();
    } else {
      var before, e := entries[..|entries| - 1], entries[|entries| - 1];
      at := KnownInTableOrder(before, block);
      ListsOneMore(before, Known(before, block), at, e);
      assert before + [e] == entries;
      if e.offset < |block| && IsSet(block[e.offset], e.bit) {
        at := at + [|before|];
      } else {
        assert Known(before, block) + [] == Known(before, block);
      }
    }
  }

  lemma NothingListed()
    ensures Lists([], [], [])
  {
  }

  /** `r` is for a lower position than `q`. */
  predicate Before(r: Report, q: Report) {
    r.offset < q.offset || (r.offset == q.offset && r.bit < q.bit)
  }

  /** Strictly ascending positions with generic texts, all below `offset`, or at it and below `bit`. */
  ghost predicate Ascending(rs: seq<Report>, offset: nat, bit: nat) {
    && (forall i, j | 0 <= i < j < |rs| :: Before(rs[i], rs[j]))
    && (forall i | 0 <= i < |rs| ::
          Before(rs[i], Report(offset, bit, "")) && rs[i].text == Generic(rs[i].offset, rs[i].bit))
  }

  lemma {:induction false} UnknownByteAscending(rs: seq<Report>, offset: nat, unknown: bv8, bits: nat)
    requires Ascending(rs, offset, 0)
    ensures Ascending(rs + UnknownInByte(offset, unknown, bits), offset, bits)
  {
    hide IsSet, Generic;
    if bits == 0 {
      assert rs + [] == rs;
    } else {
      UnknownByteAscending(rs, offset, unknown, bits - 1);
      var so := rs + UnknownInByte(offset, unknown, bits - 1);
      if IsSet(unknown, bits - 1) {
        var r := Report(offset, bits - 1, Generic(offset, bits - 1));
        assert rs + UnknownInByte(offset, unknown, bits) == so + [r];
      } else {
        assert rs + UnknownInByte(offset, unknown, bits) == so;
      }
    }
  }

  /** Bits without a name follow, in the order of offset and bit, each under its generic text. */
  lemma {:induction false} UnknownAscending(entries: seq<Entry>, block: Block, offset: nat)
    requires offset <= |block|
    ensures Ascending(Unknown(entries, block, offset), offset, 0)
  {
    hide UnknownInByte, KnownMask, Without, Generic;
    if offset > 0 {
      var rs, unknown := Unknown(entries, block, offset - 1), Without(block[offset - 1], KnownMask(entries, offset - 1));
      UnknownAscending(entries, block, offset - 1);
      UnknownByteAscending(rs, offset - 1, unknown, 8);
      assert Unknown(entries, block, offset) == rs + UnknownInByte(offset - 1, unknown, 8);
    }
  }

  function SetBits(block: Block): set<(nat, nat)> {
    set o, bit | 0 <= o < |block| && 0 <= bit < 8 && IsSet(block[o], bit) :: (o, bit)
  }

  function Positions(rs: seq<Report>): set<(nat, nat)> {
    set i | 0 <= i < |rs| :: (rs[i].offset, rs[i].bit)
  }

  lemma {:induction false} PositionsCount(rs: seq<Report>)
    requires NoRepeats(rs)
    ensures |Positions(rs)| == |rs|
  {
    if rs != [] {
      var before, e := rs[..|rs| - 1], rs[|rs| - 1];
      PositionsCount(before);
      assert Positions(rs) == Positions(before) + {(e.offset, e.bit)};
    }
  }

  /** So the list is as long as the block has set bits. */
  lemma LengthIsSetBits(entries: seq<Entry>, block: Block)
    requires Distinct(entries)
    ensures |Reports(entries, block)| == |SetBits(block)|
  {
    hide IsSet, Reports;
    var rs := Reports(entries, block);
    EachSetBitOnce(entries, block);
    PositionsCount(rs);
    assert Positions(rs) == SetBits(block) by {
      forall p | p in SetBits(block) ensures p in Positions(rs) {
        assert Mentions(rs, p.0, p.1);
      }
      forall p | p in Positions(rs) ensures p in SetBits(block) {
        assert Mentions(rs, p.0, p.1);
      }
    }
  }

  // ---- the two decoders and the generator ------------------------------ //

  /** A table of distinct single-bit rows. */
  ghost predicate WellFormed(table: seq<Fault>) {
    && (forall i | 0 <= i < |table| :: exists b: nat :: b < 8 && table[i].mask == Bit(b))
    && (forall i, j | 0 <= i < j < |table| :: table[i].offset != table[j].offset || table[i].mask != table[j].mask)
  }

  function ToEntry(f: Fault): Entry {
    Entry(f.offset, if BitLength(f.mask) == 0 then 0 else BitLength(f.mask) - 1, f.name)
  }

  function Entries(table: seq<Fault>): seq<Entry> {
    seq(|table|, i requires 0 <= i < |table| => ToEntry(table[i]))
  }

  /** Setting a key of an insertion-ordered dictionary: an old key keeps its place. */
  function Put(entries: seq<Entry>, e: Entry): seq<Entry> {
    if entries == [] then [e]
    else if entries[0].offset == e.offset && entries[0].bit == e.bit then [e] + entries[1..]
    else [entries[0]] + Put(entries[1..], e)
  }

  function BuildMap(table: seq<Fault>): seq<Entry> {
    if table == [] then [] else Put(BuildMap(table[..|table| - 1]), ToEntry(table[|table| - 1]))
  }

  lemma MaskIsBit(f: Fault)
    requires exists b: nat :: b < 8 && f.mask == Bit(b)
    ensures ToEntry(f).bit < 8 && Bit(ToEntry(f).bit) == f.mask
  {
    var b: nat :| b < 8 && f.mask == Bit(b);
    SingleBit(f.mask, b);
  }

  lemma EntriesDistinct(table: seq<Fault>)
    requires WellFormed(table)
    ensures Distinct(Entries(table))
  {
    hide Bit, BitLength, ToEntry;
    forall i | 0 <= i < |table| ensures ToEntry(table[i]).bit < 8 && Bit(ToEntry(table[i]).bit) == table[i].mask {
      MaskIsBit(table[i]);
    }
    assert forall i | 0 <= i < |table| :: ToEntry(table[i]).offset == table[i].offset by { EntryOffsets(table); }
  }

  lemma EntryOffsets(table: seq<Fault>)
    ensures forall i | 0 <= i < |table| :: ToEntry(table[i]).offset == table[i].offset
  {
  }

  lemma {:induction false} PutFresh(entries: seq<Entry>, e: Entry)
    requires forall i | 0 <= i < |entries| :: entries[i].offset != e.offset || entries[i].bit != e.bit
    ensures Put(entries, e) == entries + [e]
  {
    if entries != [] {
      PutFresh(entries[1..], e);
    }
  }

  /** The generated map lists the table's rows in table order, each under its own key. */
  lemma {:induction false} MapListsTable(table: seq<Fault>)
    requires Distinct(Entries(table))
    ensures BuildMap(table) == Entries(table)
  {
    if table != [] {
      var before := table[..|table| - 1];
      var entries := Entries(table);
      assert Entries(before) == entries[..|entries| - 1];
      MapListsTable(before);
      PutFresh(Entries(before), entries[|entries| - 1]);
    }
  }

  /** `decode_faults` */
  method DecodeFaults(table: seq<Fault>, raw: Block) returns (active: seq<string>)
    requires WellFormed(table)
    ensures active == Texts(Reports(Entries(table), Truncate(raw, FAULT_BLOCK_LEN)))
  {
    hide Known, KnownMask, Texts, MaskIn, MasksAgree, Bit, BitLength, IsSet;
    var block := Truncate(raw, FAULT_BLOCK_LEN);
    ghost var entries := Entries(table);
    active := [];
    var knownMask: map<nat, bv8> := map[];
    NothingYet(entries, block);
    for i := 0 to |table|
      invariant active == Texts(Known(entries[..i], block)) && MasksAgree(knownMask, entries[..i])
    {
      var f := table[i];
      RowByMask(f, knownMask, block);
      OneMoreRow(entries, i, knownMask, block);
      knownMask := knownMask[f.offset := MaskIn(knownMask, f.offset) | f.mask];
      if f.offset < |block| && block[f.offset] & f.mask != 0 {
        TextsAppend(Known(entries[..i], block), Report(f.offset, ToEntry(f).bit, f.name));
        active := active + [f.name];
      } else {
        assert Known(entries[..i], block) + [] == Known(entries[..i], block);
      }
    }
    assert entries[..|table|] == entries;
    active := ScanUnknown(entries, knownMask, block, active);
  }

  lemma NothingYet(entries: seq<Entry>, block: Block)
    ensures Texts(Known(entries[..0], block)) == [] && MasksAgree(map[], entries[..0])
  {
  }

  /** A single-bit mask and the bit index of the map test the same bit. */
  lemma RowByMask(f: Fault, known: map<nat, bv8>, block: Block)
    requires exists b: nat :: b < 8 && f.mask == Bit(b)
    ensures ToEntry(f).offset == f.offset && ToEntry(f).name == f.name
    ensures forall m: bv8 :: With(m, ToEntry(f).bit) == m | f.mask
    ensures f.offset < |block| ==> (IsSet(block[f.offset], ToEntry(f).bit) <==> block[f.offset] & f.mask != 0)
  {
    MaskIsBit(f);
  }

  /** Both decoders' second pass: report what is set beyond the known masks. */
  method ScanUnknown(ghost entries: seq<Entry>, known: map<nat, bv8>, block: Block, named: seq<string>)
    returns (active: seq<string>)
    requires MasksAgree(known, entries) && named == Texts(Known(entries, block))
    ensures active == Texts(Reports(entries, block))
  {
    hide Bit, KnownMask, Known, Texts, UnknownInByte, MaskIn, Without;
    active := named;
    assert Known(entries, block) + [] == Known(entries, block);
    for off := 0 to |block|
      invariant active == Texts(Known(entries, block) + Unknown(entries, block, off))
    {
      var unknown := Without(block[off], MaskIn(known, off));
      ghost var before := Known(entries, block) + Unknown(entries, block, off);
      active := ScanByte(off, unknown, active, before);
      assert Known(entries, block) + Unknown(entries, block, off + 1) == before + UnknownInByte(off, unknown, 8);
    }
  }

  method ScanByte(off: nat, unknown: bv8, listed: seq<string>, ghost before: seq<Report>) returns (active: seq<string>)
    requires listed == Texts(before)
    ensures active == Texts(before + UnknownInByte(off, unknown, 8))
  {
    hide Bit, Texts, Generic;
    active := listed;
    assert before + [] == before;
    for bit := 0 to 8
      invariant active == Texts(before + UnknownInByte(off, unknown, bit))
    {
      ghost var so := before + UnknownInByte(off, unknown, bit);
      if unknown & Bit(bit) != 0 {
        var r := Report(off, bit, Generic(off, bit));
        TextsAppend(so, r);
        assert before + UnknownInByte(off, unknown, bit + 1) == so + [r];
        active := active + [r.text];
      } else {
        assert before + UnknownInByte(off, unknown, bit + 1) == so;
      }
    }
  }

  /** The browser's `decodeFaults` with a map. */
  method BrowserDecode(entries: seq<Entry>, blockLen: nat, raw: Block) returns (out: seq<string>)
    ensures out == Texts(Reports(entries, Truncate(raw, blockLen)))
  {
    hide Known, KnownMask, Texts, MaskIn, MasksAgree, Bit, Unknown, IsSet, Reports;
    if raw == [] {
      NothingToReport(entries);
      return [];
    }
    var block := Truncate(raw, blockLen);
    out := [];
    var known: map<nat, bv8> := map[];
    NothingYet(entries, block);
    for i := 0 to |entries|
      invariant out == Texts(Known(entries[..i], block)) && MasksAgree(known, entries[..i])
    {
      var e := entries[i];
      OneMoreRow(entries, i, known, block);
      known := known[e.offset := With(MaskIn(known, e.offset), e.bit)];
      if e.offset < |block| && IsSet(block[e.offset], e.bit) {
        TextsAppend(Known(entries[..i], block), Report(e.offset, e.bit, e.name));
        out := out + [e.name];
      } else {
        assert Known(entries[..i], block) + [] == Known(entries[..i], block);
      }
    }
    assert entries[..|entries|] == entries;
    out := ScanUnknown(entries, known, block, out);
  }

  lemma {:induction false} NothingToReport(entries: seq<Entry>)
    ensures Reports(entries, []) == [] && Texts(Reports(entries, [])) == []
  {
    if entries != [] {
      NothingToReport(entries[..|entries| - 1]);
    }
  }

  /** Decoding through the generated map is decoding with the table, for every block. */
  method DecodersAgree(table: seq<Fault>, raw: Block) returns (python: seq<string>, browser: seq<string>)
    requires WellFormed(table)
    ensures python == browser && |python| == |SetBits(Truncate(raw, FAULT_BLOCK_LEN))|
  {
    hide Reports, SetBits, WellFormed;
    python := DecodeFaults(table, raw);
    EntriesDistinct(table);
    MapListsTable(table);
    browser := BrowserDecode(BuildMap(table), FAULT_BLOCK_LEN, raw);
    LengthIsSetBits(Entries(table), Truncate(raw, FAULT_BLOCK_LEN));
  }
}
