/**
 The entries of the MADT and the iterator over them (acpi/src/madt.rs:302-413; section 5.2.12 of the ACPI
 specification).
 */
module MadtEntries {
  import opened Types
  import opened Bits

  datatype Entry =
    | LocalApic(processorId: byte, apicId: byte, flags: u32)
    | IoApic(id: byte, address: u32, interruptBase: u32)
    | SourceOverride(bus: byte, irq: byte, gsi: u32, intiFlags: u16)
    | NmiSource(intiFlags: u16, gsi: u32)
    | LocalApicNmi(processorId: byte, line: byte)
    | AddressOverride(localApicAddress: u64)
    | LocalX2Apic(x2apicId: u32, flags: u32, processorUid: u32)
    | X2ApicNmi(processorUid: u32, line: byte)
    | MultiprocessorWakeup
    | UnsupportedEntry(kind: byte)

  /** The size of the structure an entry of this type is read as; reserved types are only their header. */
  function StructSize(kind: byte): nat {
    match kind
    case 0x00 => 8
    case 0x01 => 12
    case 0x02 => 10
    case 0x03 => 8
    case 0x04 => 6
    case 0x05 => 12
    case 0x06 => 16
    case 0x07 => 17
    case 0x08 => 16
    case 0x09 => 16
    case 0x0a => 12
    case 0x0b => 72
    case 0x0c => 24
    case 0x0d => 24
    case 0x0e => 16
    case 0x0f => 20
    case 0x10 => 16
    case _ => 2
  }

  /** An entry read as its structure; reserved and vendor types are skipped. */
  function ReadEntry(d: Bytes): Option<Entry>
    requires |d| >= 2 && |d| >= StructSize(d[0])
  {
    match d[0]
    case 0x00 => Some(LocalApic(d[2], d[3], Le32(d[4..8])))
    case 0x01 => Some(IoApic(d[2], Le32(d[4..8]), Le32(d[8..12])))
    case 0x02 => Some(SourceOverride(d[2], d[3], Le32(d[4..8]), Le16(d[8..10])))
    case 0x03 => Some(NmiSource(Le16(d[2..4]), Le32(d[4..8])))
    case 0x04 => Some(LocalApicNmi(d[2], d[5]))
    case 0x05 => Some(AddressOverride(Le64(d[4..12])))
    case 0x09 => Some(LocalX2Apic(Le32(d[4..8]), Le32(d[8..12]), Le32(d[12..16])))
    case 0x0a => Some(X2ApicNmi(Le32(d[4..8]), d[8]))
    case 0x10 => Some(MultiprocessorWakeup)
    case _ => if d[0] <= 0x0f then Some(UnsupportedEntry(d[0])) else None
  }

  /** How an entry of a supported type is laid out, padded with zeros. */
  function EncodeEntry(e: Entry): (d: Bytes)
    requires !e.UnsupportedEntry?
    ensures |d| >= 2
  {
    match e
    case LocalApic(processor, apic, flags) => [0x00, 8, processor, apic] + LeBytes(flags, 4)
    case IoApic(id, address, base) => [0x01, 12, id, 0] + LeBytes(address, 4) + LeBytes(base, 4)
    case SourceOverride(bus, irq, gsi, flags) => [0x02, 10, bus, irq] + LeBytes(gsi, 4) + LeBytes(flags, 2)
    case NmiSource(flags, gsi) => [0x03, 8] + LeBytes(flags, 2) + LeBytes(gsi, 4)
    case LocalApicNmi(processor, line) => [0x04, 6, processor, 0, 0, line]
    case AddressOverride(address) => [0x05, 12, 0, 0] + LeBytes(address, 8)
    case LocalX2Apic(id, flags, uid) => [0x09, 16, 0, 0] + LeBytes(id, 4) + LeBytes(flags, 4) + LeBytes(uid, 4)
    case X2ApicNmi(uid, line) => [0x0a, 12, 0, 0] + LeBytes(uid, 4) + [line, 0, 0, 0]
    case MultiprocessorWakeup => [0x10, 16, 0, 0, 0, 0, 0, 0, 0, 0, 0, 0, 0, 0, 0, 0]
  }

  /** Reading a laid-out entry gives the entry, and its length byte is its length. */
  lemma EntryRoundTrip(e: Entry)
    requires !e.UnsupportedEntry?
    ensures var d := EncodeEntry(e);
            |d| >= 2 && d[1] == |d| == StructSize(d[0]) && ReadEntry(d) == Some(e)
  {
    Powers();
    hide LeBytes, LeValue, Pow256;
    var d := EncodeEntry(e);
    match e {
      case LocalApic(_, _, flags) =>
        LeRoundTrip(flags, 4);
        assert d[4..8] == LeBytes(flags, 4);
      case IoApic(_, address, base) =>
        LeRoundTrip(address, 4);
        LeRoundTrip(base, 4);
        assert d[4..8] == LeBytes(address, 4) && d[8..12] == LeBytes(base, 4);
      case SourceOverride(_, _, gsi, flags) =>
        LeRoundTrip(gsi, 4);
        LeRoundTrip(flags, 2);
        assert d[4..8] == LeBytes(gsi, 4) && d[8..10] == LeBytes(flags, 2);
      case NmiSource(flags, gsi) =>
        LeRoundTrip(gsi, 4);
        LeRoundTrip(flags, 2);
        assert d[4..8] == LeBytes(gsi, 4) && d[2..4] == LeBytes(flags, 2);
      case LocalApicNmi(_, _) =>
      case AddressOverride(address) =>
        LeRoundTrip(address, 8);
        assert d[4..12] == LeBytes(address, 8);
      case LocalX2Apic(id, flags, uid) =>
        LeRoundTrip(id, 4);
        LeRoundTrip(flags, 4);
        LeRoundTrip(uid, 4);
        FourParts([0x09, 16, 0, 0], LeBytes(id, 4), LeBytes(flags, 4), LeBytes(uid, 4));
      case X2ApicNmi(uid, _) =>
        LeRoundTrip(uid, 4);
        assert d[4..8] == LeBytes(uid, 4);
      case MultiprocessorWakeup =>
    }
  }

  /** The parts of a joined string are its slices. */
  lemma FourParts(h: Bytes, a: Bytes, b: Bytes, c: Bytes)
    ensures var s := h + a + b + c;
            var i, j := |h| + |a|, |h| + |a| + |b|;
            s[..|h|] == h && s[|h|..i] == a && s[i..j] == b && s[j..j + |c|] == c && |s| == j + |c|
  {
  }

  /** Every entry is at least as long as its structure, and their lengths sum to the table. */
  predicate WellFormed(bytes: Bytes)
    decreases |bytes|
  {
    bytes == [] ||
    (|bytes| >= 2 && 2 <= bytes[1] <= |bytes| && StructSize(bytes[0]) <= bytes[1] && WellFormed(bytes[bytes[1]..]))
  }

  function Entries(bytes: Bytes): seq<Entry>
    requires WellFormed(bytes)
    decreases |bytes|
  {
    if bytes == [] then [] else
      var rest := Entries(bytes[bytes[1]..]);
      match ReadEntry(bytes[..bytes[1]])
      case Some(e) => [e] + rest
      case None => rest
  }

  /** Types that no structure is defined for are skipped; those of SAPICs and GICs are kept, unread. */
  lemma OtherTypes(d: Bytes)
    requires |d| >= 2 && |d| >= StructSize(d[0])
    ensures d[0] > 0x10 ==> ReadEntry(d) == None
    ensures d[0] in [0x06, 0x07, 0x08, 0x0b, 0x0c, 0x0d, 0x0e, 0x0f] ==> ReadEntry(d) == Some(UnsupportedEntry(d[0]))
    ensures d[0] == 0x10 ==> ReadEntry(d) == Some(MultiprocessorWakeup)
  {
  }

  predicate Supported(es: seq<Entry>) { forall k :: 0 <= k < |es| ==> !es[k].UnsupportedEntry? }

  function EncodeTable(es: seq<Entry>): Bytes
    requires Supported(es)
    decreases |es|
  {
    if es == [] then [] else EncodeEntry(es[0]) + EncodeTable(es[1..])
  }

  /** A table of supported entries is well formed and holds them in order. */
  lemma {:induction false} TableRoundTrip(es: seq<Entry>)
    requires Supported(es)
    ensures WellFormed(EncodeTable(es)) && Entries(EncodeTable(es)) == es
    decreases |es|
  {
    hide EncodeEntry, ReadEntry, StructSize;
    if es != [] {
      TableRoundTrip(es[1..]);
      EntryRoundTrip(es[0]);
      var d, rest := EncodeEntry(es[0]), EncodeTable(es[1..]);
      var t := d + rest;
      assert t[0] == d[0] && t[1] == d[1] && t[d[1]..] == rest && t[..d[1]] == d;
      assert WellFormed(t);
    }
  }

  class MadtEntryIter {
    const table: Bytes
    var pointer: nat
    var remaining: nat

    ghost predicate Valid()
      reads this
    {
      pointer + remaining == |table| && WellFormed(table[pointer..])
    }

    /** The entries still to come. */
    ghost function Rest(): seq<Entry>
      requires Valid()
      reads this
    {
      Entries(table[pointer..])
    }

    constructor (bytes: Bytes)
      requires WellFormed(bytes)
      ensures Valid() && Rest() == Entries(bytes)
    {
      table, pointer, remaining := bytes, 0, |bytes|;
      new;
      assert table[0..] == bytes;
    }

    /** The next entry that is not reserved; the reads stay inside the table and the loop ends. */
    method Next() returns (e: Option<Entry>)
      requires Valid()
      modifies this
      ensures Valid()
      ensures match e
              case Some(entry) => old(Rest()) == [entry] + Rest()
              case None => old(Rest()) == [] && Rest() == []
      ensures e.Some? ==> remaining < old(remaining)
    {
      while remaining > 0
        invariant Valid() && remaining <= old(remaining)
        invariant Rest() == old(Rest())
        decreases remaining
      {
        ghost var before := table[pointer..];
        var entryPointer := pointer;
        var length: nat := table[pointer + 1];
        assert before[..before[1]] == table[entryPointer..entryPointer + length];
        assert before[before[1]..] == table[entryPointer + length..];
        pointer := pointer + length;
        remaining := remaining - length;
        e := ReadEntry(table[entryPointer..entryPointer + length]);
        if e.Some? { return; }
      }
      e := None;
      assert table[pointer..] == [];
    }
  }
}
