/** The two-pass parse of the APIC interrupt model (acpi/src/madt.rs:51-300, 623-639). */
module Madt {
  import opened Types
  import opened MadtEntries

  datatype MadtError =
    | UnexpectedEntry
    | InterruptOverrideEntryHasInvalidBus
    | InvalidLocalNmiLine
    | MpsIntiInvalidPolarity
    | MpsIntiInvalidTriggerMode

  datatype Polarity = SameAsBus | ActiveHigh | ActiveLow
  datatype TriggerMode = BusTrigger | EdgeTrigger | LevelTrigger
  datatype Inti = Inti(polarity: Polarity, trigger: TriggerMode)
  datatype ProcessorState = Disabled | WaitingForSipi | Running
  datatype Processor = Processor(uid: u32, localApicId: u32, state: ProcessorState, isAp: bool)
  datatype IoApicInfo = IoApicInfo(id: byte, address: u32, interruptBase: u32)
  datatype OverrideInfo = OverrideInfo(isaSource: byte, gsi: u32, inti: Inti)
  datatype NmiSourceInfo = NmiSourceInfo(gsi: u32, inti: Inti)
  datatype NmiProcessor = All | ProcessorUid(uid: u32)
  datatype NmiLine = NmiLine(processor: NmiProcessor, line: byte)

  datatype Checked<+T> = Good(value: T) | Bad(error: MadtError)

  function ParseIntiFlags(flags: u16): Checked<Inti> {
    var n: nat := flags;
    var p, t := n % 4, n / 4 % 4;
    if p == 2 then Bad(MpsIntiInvalidPolarity)
    else if t == 2 then Bad(MpsIntiInvalidTriggerMode)
    else Good(Inti(if p == 0 then SameAsBus else if p == 1 then ActiveHigh else ActiveLow,
                   if t == 0 then BusTrigger else if t == 1 then EdgeTrigger else LevelTrigger))
  }

  /** The four low bits that spell a polarity and a trigger mode. */
  function IntiBits(inti: Inti): nat {
    (match inti.polarity case SameAsBus => 0 case ActiveHigh => 1 case ActiveLow => 3) +
    4 * (match inti.trigger case BusTrigger => 0 case EdgeTrigger => 1 case LevelTrigger => 3)
  }

  /** The flags are accepted exactly when their low bits spell something, and then as what they spell. */
  lemma IntiFlagsSpell(flags: u16, inti: Inti)
    ensures ParseIntiFlags(flags) == Good(inti) <==> flags % 16 == IntiBits(inti)
  {
    var n: nat := flags;
    var q, r := n / 16, n % 16;
    assert n == 16 * q + r;
    assert n % 4 == r % 4 && n / 4 % 4 == r / 4;
  }

  // ---- One entry ----

  function ProcessorOf(e: Entry, isAp: bool): Processor
    requires e.LocalApic? || e.LocalX2Apic?
  {
    var flags: nat := e.flags;
    var state := if flags % 2 == 0 then Disabled else if isAp then WaitingForSipi else Running;
    if e.LocalApic? then Processor(e.processorId, e.apicId, state, isAp)
    else Processor(e.processorUid, e.x2apicId, state, isAp)
  }

  function LineOf(e: Entry): NmiLine
    requires (e.LocalApicNmi? || e.X2ApicNmi?) && e.line <= 1
  {
    if e.LocalApicNmi? then NmiLine(if e.processorId == 0xff then All else ProcessorUid(e.processorId), e.line)
    else NmiLine(if e.processorUid == 0xffff_ffff then All else ProcessorUid(e.processorUid), e.line)
  }

  /** What is wrong with an entry, if anything. */
  function Fault(e: Entry): Option<MadtError> {
    match e
    case SourceOverride(bus, _, _, flags) =>
      if bus != 0 then Some(InterruptOverrideEntryHasInvalidBus)
      else if ParseIntiFlags(flags).Bad? then Some(ParseIntiFlags(flags).error) else None
    case NmiSource(flags, _) => if ParseIntiFlags(flags).Bad? then Some(ParseIntiFlags(flags).error) else None
    case LocalApicNmi(_, line) => if line > 1 then Some(InvalidLocalNmiLine) else None
    case X2ApicNmi(_, line) => if line > 1 then Some(InvalidLocalNmiLine) else None
    case MultiprocessorWakeup => Some(UnexpectedEntry)
    case UnsupportedEntry(_) => Some(UnexpectedEntry)
    case _ => None
  }

  predicate AllGood(es: seq<Entry>) { forall k :: 0 <= k < |es| ==> Fault(es[k]).None? }

  // ---- The filling pass, as a fold ----

  /** How many slots each slice has. */
  datatype Sizes = Sizes(ioApics: nat, overrides: nat, nmiSources: nat, nmiLines: nat, aps: nat)

  /** The first pass: x2APIC entries are not counted. */
  datatype Counts = Counts(ioApics: nat, overrides: nat, nmiSources: nat, nmiLines: nat, processors: nat)

  function CountEntry(c: Counts, e: Entry): Counts {
    match e
    case IoApic(_, _, _) => c.(ioApics := c.ioApics + 1)
    case SourceOverride(_, _, _, _) => c.(overrides := c.overrides + 1)
    case NmiSource(_, _) => c.(nmiSources := c.nmiSources + 1)
    case LocalApicNmi(_, _) => c.(nmiLines := c.nmiLines + 1)
    case LocalApic(_, _, _) => c.(processors := c.processors + 1)
    case _ => c
  }

  function CountAll(es: seq<Entry>): Counts
    decreases |es|
  {
    if es == [] then Counts(0, 0, 0, 0, 0) else CountEntry(CountAll(es[..|es| - 1]), es[|es| - 1])
  }

  function SizesOf(c: Counts): Sizes {
    Sizes(c.ioApics, c.overrides, c.nmiSources, c.nmiLines, if c.processors == 0 then 0 else c.processors - 1)
  }

  /** The slots written so far. */
  datatype Filled = Filled(
    address: u64,
    ioApics: seq<IoApicInfo>,
    overrides: seq<OverrideInfo>,
    nmiSources: seq<NmiSourceInfo>,
    nmiLines: seq<NmiLine>,
    boot: Option<Processor>,
    aps: seq<Processor>)

  /** `Crash` stands for an index out of bounds or an unwrapped `None`. */
  datatype Progress<+T> = Going(value: T) | Invalid(error: MadtError) | Crash

  function Fill(sizes: Sizes, f: Filled, e: Entry): Progress<Filled> {
    match e
    case LocalApic(_, _, _) => FillProcessor(sizes, f, e)
    case LocalX2Apic(_, _, _) => FillProcessor(sizes, f, e)
    case IoApic(id, address, base) =>
      if |f.ioApics| >= sizes.ioApics then Crash
      else Going(f.(ioApics := f.ioApics + [IoApicInfo(id, address, base)]))
    case SourceOverride(bus, irq, gsi, flags) =>
      if Fault(e).Some? then Invalid(Fault(e).value)
      else if |f.overrides| >= sizes.overrides then Crash
      else Going(f.(overrides := f.overrides + [OverrideInfo(irq, gsi, ParseIntiFlags(flags).value)]))
    case NmiSource(flags, gsi) =>
      if Fault(e).Some? then Invalid(Fault(e).value)
      else if |f.nmiSources| >= sizes.nmiSources then Crash
      else Going(f.(nmiSources := f.nmiSources + [NmiSourceInfo(gsi, ParseIntiFlags(flags).value)]))
    case LocalApicNmi(_, _) => FillLine(sizes, f, e)
    case X2ApicNmi(_, _) => FillLine(sizes, f, e)
    case AddressOverride(address) => Going(f.(address := address))
    case _ => Invalid(UnexpectedEntry)
  }

  function FillProcessor(sizes: Sizes, f: Filled, e: Entry): Progress<Filled>
    requires e.LocalApic? || e.LocalX2Apic?
  {
    if f.boot.None? then Going(f.(boot := Some(ProcessorOf(e, false))))
    else if |f.aps| >= sizes.aps then Crash
    else Going(f.(aps := f.aps + [ProcessorOf(e, true)]))
  }

  /** The value of a slot is computed before the slot is reached. */
  function FillLine(sizes: Sizes, f: Filled, e: Entry): Progress<Filled>
    requires e.LocalApicNmi? || e.X2ApicNmi?
  {
    if e.line > 1 then Invalid(InvalidLocalNmiLine)
    else if |f.nmiLines| >= sizes.nmiLines then Crash
    else Going(f.(nmiLines := f.nmiLines + [LineOf(e)]))
  }

  function FillAll(sizes: Sizes, start: u64, es: seq<Entry>): Progress<Filled>
    decreases |es|
  {
    if es == [] then Going(Filled(start, [], [], [], [], None, []))
    else match FillAll(sizes, start, es[..|es| - 1])
      case Going(f) => Fill(sizes, f, es[|es| - 1])
      case Invalid(error) => Invalid(error)
      case Crash => Crash
  }

  // ---- What a fill holds ----

  function IoApicsOf(es: seq<Entry>): seq<IoApicInfo>
    decreases |es|
  {
    if es == [] then [] else
      var last := es[|es| - 1];
      IoApicsOf(es[..|es| - 1]) + if last.IoApic? then [IoApicInfo(last.id, last.address, last.interruptBase)] else []
  }

  function OverridesOf(es: seq<Entry>): seq<OverrideInfo>
    requires AllGood(es)
    decreases |es|
  {
    if es == [] then [] else
      var last := es[|es| - 1];
      OverridesOf(es[..|es| - 1]) +
      if last.SourceOverride? then [OverrideInfo(last.irq, last.gsi, ParseIntiFlags(last.intiFlags).value)] else []
  }

  function NmiSourcesOf(es: seq<Entry>): seq<NmiSourceInfo>
    requires AllGood(es)
    decreases |es|
  {
    if es == [] then [] else
      var last := es[|es| - 1];
      NmiSourcesOf(es[..|es| - 1]) +
      if last.NmiSource? then [NmiSourceInfo(last.gsi, ParseIntiFlags(last.intiFlags).value)] else []
  }

  function NmiLinesOf(es: seq<Entry>): seq<NmiLine>
    requires AllGood(es)
    decreases |es|
  {
    if es == [] then [] else
      var last := es[|es| - 1];
      NmiLinesOf(es[..|es| - 1]) + if last.LocalApicNmi? || last.X2ApicNmi? then [LineOf(last)] else []
  }

  /** The processor entries, in table order. */
  function ProcessorsOf(es: seq<Entry>): (ps: seq<Entry>)
    ensures forall k :: 0 <= k < |ps| ==> ps[k].LocalApic? || ps[k].LocalX2Apic?
    decreases |es|
  {
    if es == [] then [] else
      var last := es[|es| - 1];
      ProcessorsOf(es[..|es| - 1]) + if last.LocalApic? || last.LocalX2Apic? then [last] else []
  }

  /** The last override of the address, or the table's own. */
  function AddressOf(start: u64, es: seq<Entry>): u64
    decreases |es|
  {
    if es == [] then start
    else if es[|es| - 1].AddressOverride? then es[|es| - 1].localApicAddress
    else AddressOf(start, es[..|es| - 1])
  }

  function ApsOf(es: seq<Entry>): seq<Processor> {
    var ps := ProcessorsOf(es);
    if ps == [] then [] else seq(|ps| - 1, k requires 0 <= k < |ps| - 1 => ProcessorOf(ps[k + 1], true))
  }

  function BootOf(es: seq<Entry>): Option<Processor> {
    var ps := ProcessorsOf(es);
    if ps == [] then None else Some(ProcessorOf(ps[0], false))
  }

  /** Everything the entries say, each list in table order. */
  function Contents(start: u64, es: seq<Entry>): Filled
    requires AllGood(es)
  {
    Filled(AddressOf(start, es), IoApicsOf(es), OverridesOf(es), NmiSourcesOf(es), NmiLinesOf(es), BootOf(es),
           ApsOf(es))
  }

  predicate Fits(sizes: Sizes, f: Filled) {
    && |f.ioApics| <= sizes.ioApics && |f.overrides| <= sizes.overrides && |f.nmiSources| <= sizes.nmiSources
    && |f.nmiLines| <= sizes.nmiLines && |f.aps| <= sizes.aps
  }

  lemma ContentsGrow(start: u64, es: seq<Entry>)
    requires es != [] && AllGood(es)
    ensures AllGood(es[..|es| - 1])
    ensures var f, last := Contents(start, es[..|es| - 1]), es[|es| - 1];
            Contents(start, es) ==
            match last
            case LocalApic(_, _, _) => AddProcessor(f, last)
            case LocalX2Apic(_, _, _) => AddProcessor(f, last)
            case IoApic(id, address, base) => f.(ioApics := f.ioApics + [IoApicInfo(id, address, base)])
            case SourceOverride(bus, irq, gsi, flags) =>
              f.(overrides := f.overrides + [OverrideInfo(irq, gsi, ParseIntiFlags(flags).value)])
            case NmiSource(flags, gsi) =>
              f.(nmiSources := f.nmiSources + [NmiSourceInfo(gsi, ParseIntiFlags(flags).value)])
            case LocalApicNmi(_, _) => f.(nmiLines := f.nmiLines + [LineOf(last)])
            case X2ApicNmi(_, _) => f.(nmiLines := f.nmiLines + [LineOf(last)])
            case AddressOverride(address) => f.(address := address)
            case _ => f
  {
    hide ParseIntiFlags, ProcessorOf, LineOf, ApsOf, BootOf;
    assert Fault(es[|es| - 1]).None?;
    ProcessorsGrow(es);
  }

  lemma ProcessorsGrow(es: seq<Entry>)
    requires es != []
    ensures var front, last := es[..|es| - 1], es[|es| - 1];
            if last.LocalApic? || last.LocalX2Apic? then
              && (BootOf(front).None? ==> BootOf(es) == Some(ProcessorOf(last, false)) && ApsOf(es) == ApsOf(front))
              && (BootOf(front).Some? ==>
                   BootOf(es) == BootOf(front) && ApsOf(es) == ApsOf(front) + [ProcessorOf(last, true)])
            else BootOf(es) == BootOf(front) && ApsOf(es) == ApsOf(front)
  {
    hide ProcessorOf;
  }

  function AddProcessor(f: Filled, e: Entry): Filled
    requires e.LocalApic? || e.LocalX2Apic?
  {
    if f.boot.None? then f.(boot := Some(ProcessorOf(e, false))) else f.(aps := f.aps + [ProcessorOf(e, true)])
  }

  /** With faultless entries the fill holds exactly what they say, and crashes exactly when that has no room. */
  lemma {:induction false} FillIsContents(sizes: Sizes, start: u64, es: seq<Entry>)
    requires AllGood(es)
    ensures FillAll(sizes, start, es) == if Fits(sizes, Contents(start, es)) then Going(Contents(start, es)) else Crash
    decreases |es|
  {
    hide Contents;
    if es == [] {
      EmptyContents(start);
    } else {
      ContentsGrow(start, es);
      FillIsContents(sizes, start, es[..|es| - 1]);
    }
  }

  lemma EmptyContents(start: u64)
    ensures Contents(start, []) == Filled(start, [], [], [], [], None, [])
  {
  }

  // ---- Counting and filling agree ----

  predicate IsX2(e: Entry) { e.LocalX2Apic? }

  predicate IsX2Nmi(e: Entry) { e.X2ApicNmi? }

  function Count(es: seq<Entry>, p: Entry -> bool): (n: nat)
    ensures n <= |es|
    decreases |es|
  {
    if es == [] then 0 else Count(es[..|es| - 1], p) + if p(es[|es| - 1]) then 1 else 0
  }

  /** The first pass counts what the second pass writes, except for x2APIC entries. */
  lemma {:induction false} CountsMatch(es: seq<Entry>)
    requires AllGood(es)
    ensures var c := CountAll(es);
            && |IoApicsOf(es)| == c.ioApics && |OverridesOf(es)| == c.overrides && |NmiSourcesOf(es)| == c.nmiSources
            && |NmiLinesOf(es)| == c.nmiLines + Count(es, IsX2Nmi)
            && |ProcessorsOf(es)| == c.processors + Count(es, IsX2)
    decreases |es|
  {
    hide ParseIntiFlags;
    if es != [] { CountsMatch(es[..|es| - 1]); }
  }

  /** The local APICs, or failing them a single x2APIC, are the processors; x2APIC NMI lines have no slot. */
  predicate HasRoom(es: seq<Entry>) {
    Count(es, IsX2Nmi) == 0 && if CountAll(es).processors > 0 then Count(es, IsX2) == 0 else Count(es, IsX2) <= 1
  }

  /** With faultless entries the fill runs out of slots exactly when there are x2APIC entries beyond that. */
  lemma FillCrashesIff(start: u64, es: seq<Entry>)
    requires AllGood(es)
    ensures FillAll(SizesOf(CountAll(es)), start, es) ==
            if HasRoom(es) then Going(Contents(start, es)) else Crash
    ensures HasRoom(es) ==> IsExact(SizesOf(CountAll(es)), Contents(start, es))
  {
    hide FillAll, IoApicsOf, OverridesOf, NmiSourcesOf, NmiLinesOf, ProcessorsOf, CountAll, Count, ProcessorOf;
    CountsMatch(es);
    FillIsContents(SizesOf(CountAll(es)), start, es);
  }

  /** Every slot is written, once. */
  predicate IsExact(sizes: Sizes, f: Filled) {
    && |f.ioApics| == sizes.ioApics && |f.overrides| == sizes.overrides && |f.nmiSources| == sizes.nmiSources
    && |f.nmiLines| == sizes.nmiLines && |f.aps| == sizes.aps
  }

  lemma {:induction false} GoingMeansGood(sizes: Sizes, start: u64, es: seq<Entry>)
    requires FillAll(sizes, start, es).Going?
    ensures AllGood(es)
    decreases |es|
  {
    hide ParseIntiFlags;
    if es != [] {
      GoingMeansGood(sizes, start, es[..|es| - 1]);
      assert Fault(es[|es| - 1]).None?;
      assert forall k :: 0 <= k < |es| - 1 ==> es[k] == es[..|es| - 1][k];
    }
  }

  /** The first faulty entry, if there is room up to it, is what the parse reports. */
  lemma {:induction false} FirstFaultStops(sizes: Sizes, start: u64, es: seq<Entry>, k: nat)
    requires k < |es| && Fault(es[k]).Some? && AllGood(es[..k]) && Fits(sizes, Contents(start, es[..k]))
    ensures FillAll(sizes, start, es) == Invalid(Fault(es[k]).value)
    decreases |es|
  {
    hide Contents, ParseIntiFlags;
    if k < |es| - 1 {
      assert es[..|es| - 1][..k] == es[..k];
      FirstFaultStops(sizes, start, es[..|es| - 1], k);
    } else {
      FillIsContents(sizes, start, es[..k]);
    }
  }

  /** Where the first faulty entry is, or the end. */
  function FirstFault(es: seq<Entry>): (k: nat)
    ensures k <= |es| && AllGood(es[..k]) && (k < |es| ==> Fault(es[k]).Some?)
    decreases |es|
  {
    if es == [] then 0 else
      var k := FirstFault(es[..|es| - 1]);
      assert k <= |es| - 1 && es[..|es| - 1][..k] == es[..k];
      if k < |es| - 1 || Fault(es[k]).Some? then k else |es|
  }

  lemma {:induction false} CrashStays(sizes: Sizes, start: u64, es: seq<Entry>, k: nat)
    requires k <= |es| && FillAll(sizes, start, es[..k]).Crash?
    ensures FillAll(sizes, start, es).Crash?
    decreases |es|
  {
    if k == |es| {
      assert es[..k] == es;
    } else {
      assert es[..|es| - 1][..k] == es[..k];
      CrashStays(sizes, start, es[..|es| - 1], k);
    }
  }

  /** A fill panics if the entries before the first fault do not fit, else fails at that fault, else holds them all. */
  lemma FillOutcome(sizes: Sizes, start: u64, es: seq<Entry>)
    ensures var k := FirstFault(es);
            FillAll(sizes, start, es) ==
            if !Fits(sizes, Contents(start, es[..k])) then Crash
            else if k < |es| then Invalid(Fault(es[k]).value)
            else Going(Contents(start, es[..k]))
  {
    hide Contents, FillAll, Fits;
    var k := FirstFault(es);
    FillIsContents(sizes, start, es[..k]);
    if !Fits(sizes, Contents(start, es[..k])) {
      CrashStays(sizes, start, es, k);
    } else if k < |es| {
      FirstFaultStops(sizes, start, es, k);
    } else {
      assert es[..k] == es;
    }
  }

  // ---- The parse ----

  datatype MadtTable = MadtTable(localApicAddress: u32, flags: u32, entries: Bytes)

  datatype Model = Model(
    localApicAddress: u64,
    ioApics: seq<IoApicInfo>,
    nmiLines: seq<NmiLine>,
    overrides: seq<OverrideInfo>,
    nmiSources: seq<NmiSourceInfo>,
    alsoHasLegacyPics: bool,
    boot: Processor,
    aps: seq<Processor>)

  function Supports8259(m: MadtTable): bool {
    var flags: nat := m.flags;
    flags % 2 == 1
  }

  function ModelOf(m: MadtTable, f: Filled): Progress<Model> {
    if f.boot.None? then Crash
    else Going(Model(f.address, f.ioApics, f.nmiLines, f.overrides, f.nmiSources, Supports8259(m), f.boot.value, f.aps))
  }

  function ApicModel(m: MadtTable): Progress<Model>
    requires WellFormed(m.entries)
  {
    var es := Entries(m.entries);
    match FillAll(SizesOf(CountAll(es)), m.localApicAddress, es)
    case Going(f) => ModelOf(m, f)
    case Invalid(error) => Invalid(error)
    case Crash => Crash
  }

  method CountEntries(m: MadtTable) returns (c: Counts)
    requires WellFormed(m.entries)
    ensures c == CountAll(Entries(m.entries))
  {
    hide WellFormed, Entries, MadtEntryIter.Rest;
    ghost var es := Entries(m.entries);
    ghost var k := 0;
    c := Counts(0, 0, 0, 0, 0);
    var it := new MadtEntryIter(m.entries);
    var e := it.Next();
    while e.Some?
      invariant it.Valid() && fresh(it) && 0 <= k <= |es|
      invariant c == CountAll(es[..k])
      invariant es[k..] == if e.Some? then [e.value] + it.Rest() else []
      decreases if e.Some? then it.remaining + 1 else 0
    {
      assert es[k] == e.value && es[k + 1..] == it.Rest() by { assert es[k..][1..] == es[k + 1..]; }
      assert es[..k + 1][..k] == es[..k];
      c := CountEntry(c, e.value);
      k := k + 1;
      e := it.Next();
    }
    assert es[..k] == es;
  }

  /** One allocated slice and how many of its slots are written. */
  class Slice<T(0)> {
    const slots: array<T>
    var count: nat

    ghost predicate Valid() reads this { count <= slots.Length }

    ghost function Written(): seq<T>
      requires Valid()
      reads this, slots
    {
      slots[..count]
    }

    constructor (size: nat)
      ensures Valid() && fresh(slots) && slots.Length == size && Written() == []
    {
      slots := new T[size];
      count := 0;
    }

    /** Writes the next slot; past the last one the source's indexing panics. */
    method Put(x: T) returns (ok: bool)
      requires Valid()
      modifies this, slots
      ensures Valid()
      ensures ok == (|old(Written())| < slots.Length)
      ensures Written() == if ok then old(Written()) + [x] else old(Written())
    {
      ok := count < slots.Length;
      if ok {
        slots[count] := x;
        count := count + 1;
      }
    }
  }

  /** The local state of the filling pass. */
  class Filler {
    const ioApics: Slice<IoApicInfo>
    const overrides: Slice<OverrideInfo>
    const nmiSources: Slice<NmiSourceInfo>
    const nmiLines: Slice<NmiLine>
    const aps: Slice<Processor>
    var boot: Option<Processor>
    var address: u64

    ghost const Repr: set<object>

    ghost predicate Valid()
      reads Repr
    {
      && {ioApics, ioApics.slots, overrides, overrides.slots, nmiSources, nmiSources.slots,
          nmiLines, nmiLines.slots, aps, aps.slots, this} <= Repr
      && ioApics.Valid() && overrides.Valid() && nmiSources.Valid() && nmiLines.Valid() && aps.Valid()
    }

    function Capacity(): Sizes {
      Sizes(ioApics.slots.Length, overrides.slots.Length, nmiSources.slots.Length, nmiLines.slots.Length,
            aps.slots.Length)
    }

    ghost function State(): Filled
      requires Valid()
      reads Repr
    {
      Filled(address, ioApics.Written(), overrides.Written(), nmiSources.Written(), nmiLines.Written(), boot,
             aps.Written())
    }

    constructor (sizes: Sizes, start: u64)
      ensures Valid() && fresh(Repr) && Capacity() == sizes
      ensures State() == Filled(start, [], [], [], [], None, [])
    {
      var a := new Slice<IoApicInfo>(sizes.ioApics);
      var b := new Slice<OverrideInfo>(sizes.overrides);
      var c := new Slice<NmiSourceInfo>(sizes.nmiSources);
      var d := new Slice<NmiLine>(sizes.nmiLines);
      var e := new Slice<Processor>(sizes.aps);
      ioApics, overrides, nmiSources, nmiLines, aps := a, b, c, d, e;
      boot, address := None, start;
      Repr := {this, a, a.slots, b, b.slots, c, c.slots, d, d.slots, e, e.slots};
    }

    /** The body of the filling loop. */
    method Accept(e: Entry) returns (r: Progress<()>)
      requires Valid()
      modifies Repr
      ensures Valid()
      ensures match Fill(Capacity(), old(State()), e)
              case Going(f) => r == Going(()) && State() == f
              case Invalid(error) => r == Invalid(error)
              case Crash => r == Crash
    {
      hide ParseIntiFlags, ProcessorOf, LineOf, Slice.Written, Slice.Valid;
      var ok := true;
      match e {
        case LocalApic(_, _, _) => ok := AcceptProcessor(e);
        case LocalX2Apic(_, _, _) => ok := AcceptProcessor(e);
        case IoApic(id, ioApicAddress, base) => ok := ioApics.Put(IoApicInfo(id, ioApicAddress, base));
        case SourceOverride(bus, irq, gsi, flags) =>
          if bus != 0 { return Invalid(InterruptOverrideEntryHasInvalidBus); }
          var inti := ParseIntiFlags(flags);
          if inti.Bad? { return Invalid(inti.error); }
          ok := overrides.Put(OverrideInfo(irq, gsi, inti.value));
        case NmiSource(flags, gsi) =>
          var inti := ParseIntiFlags(flags);
          if inti.Bad? { return Invalid(inti.error); }
          ok := nmiSources.Put(NmiSourceInfo(gsi, inti.value));
        case LocalApicNmi(_, line) =>
          if line > 1 { return Invalid(InvalidLocalNmiLine); }
          ok := nmiLines.Put(LineOf(e));
        case X2ApicNmi(_, line) =>
          if line > 1 { return Invalid(InvalidLocalNmiLine); }
          ok := nmiLines.Put(LineOf(e));
        case AddressOverride(overrideAddress) => address := overrideAddress;
        case MultiprocessorWakeup => return Invalid(UnexpectedEntry);
        case UnsupportedEntry(_) => return Invalid(UnexpectedEntry);
      }
      r := if ok then Going(()) else Crash;
    }

    /** The whole slices, and the boot processor if there is one. */
    method Finish(alsoHasLegacyPics: bool) returns (r: Progress<Model>)
      requires Valid() && IsExact(Capacity(), State())
      ensures var f := State();
              r == if f.boot.None? then Crash
                   else Going(Model(f.address, f.ioApics, f.nmiLines, f.overrides, f.nmiSources, alsoHasLegacyPics,
                                    f.boot.value, f.aps))
    {
      if boot.None? { return Crash; }
      assert ioApics.slots[..] == ioApics.Written() && nmiLines.slots[..] == nmiLines.Written();
      assert overrides.slots[..] == overrides.Written() && nmiSources.slots[..] == nmiSources.Written();
      assert aps.slots[..] == aps.Written();
      r := Going(Model(address, ioApics.slots[..], nmiLines.slots[..], overrides.slots[..], nmiSources.slots[..],
                       alsoHasLegacyPics, boot.value, aps.slots[..]));
    }

    /** The first processor is the boot processor; the others go into slots. */
    method AcceptProcessor(e: Entry) returns (ok: bool)
      requires Valid() && (e.LocalApic? || e.LocalX2Apic?)
      modifies this`boot, aps, aps.slots
      ensures Valid()
      ensures match FillProcessor(Capacity(), old(State()), e)
              case Going(f) => ok && State() == f
              case Invalid(_) => false
              case Crash => !ok
    {
      if boot.None? {
        boot := Some(ProcessorOf(e, false));
        ok := true;
      } else {
        ok := aps.Put(ProcessorOf(e, true));
      }
    }
  }

  /** The same fold, read from the front. */
  function FillFrom(sizes: Sizes, f: Filled, es: seq<Entry>): Progress<Filled>
    decreases |es|
  {
    if es == [] then Going(f)
    else match Fill(sizes, f, es[0])
      case Going(g) => FillFrom(sizes, g, es[1..])
      case Invalid(error) => Invalid(error)
      case Crash => Crash
  }

  lemma {:induction false} FillFromSnoc(sizes: Sizes, f: Filled, es: seq<Entry>, e: Entry)
    ensures FillFrom(sizes, f, es + [e]) ==
            match FillFrom(sizes, f, es)
            case Going(g) => Fill(sizes, g, e)
            case Invalid(error) => Invalid(error)
            case Crash => Crash
    decreases |es|
  {
    hide Fill;
    if es == [] {
      assert es + [e] == [e] && [e][1..] == [];
    } else {
      assert (es + [e])[1..] == es[1..] + [e];
      if Fill(sizes, f, es[0]).Going? { FillFromSnoc(sizes, Fill(sizes, f, es[0]).value, es[1..], e); }
    }
  }

  lemma {:induction false} FillAllIsFillFrom(sizes: Sizes, start: u64, es: seq<Entry>)
    ensures FillAll(sizes, start, es) == FillFrom(sizes, Filled(start, [], [], [], [], None, []), es)
    decreases |es|
  {
    hide Fill;
    if es != [] {
      var front := es[..|es| - 1];
      assert es == front + [es[|es| - 1]];
      FillAllIsFillFrom(sizes, start, front);
      FillFromSnoc(sizes, Filled(start, [], [], [], [], None, []), front, es[|es| - 1]);
    }
  }

  /** The filling loop over a table's entries. */
  method FillFromTable(m: MadtTable, sizes: Sizes) returns (filler: Filler, r: Progress<()>)
    requires WellFormed(m.entries)
    ensures filler.Valid() && filler.Capacity() == sizes && fresh(filler.Repr)
    ensures match FillAll(sizes, m.localApicAddress, Entries(m.entries))
            case Going(f) => r == Going(()) && filler.State() == f
            case Invalid(error) => r == Invalid(error)
            case Crash => r == Crash
  {
    hide Fill, WellFormed, Entries, FillAll, Filler.State, Filler.Valid, MadtEntryIter.Rest;
    FillAllIsFillFrom(sizes, m.localApicAddress, Entries(m.entries));
    filler := new Filler(sizes, m.localApicAddress);
    var it := new MadtEntryIter(m.entries);
    ghost var rest := Entries(m.entries);
    var e := it.Next();
    while e.Some?
      invariant fresh(it) && fresh(filler.Repr) && it !in filler.Repr
      invariant it.Valid() && filler.Valid()
      invariant rest == if e.Some? then [e.value] + it.Rest() else []
      invariant FillAll(sizes, m.localApicAddress, Entries(m.entries)) == FillFrom(sizes, filler.State(), rest)
      decreases if e.Some? then it.remaining + 1 else 0
    {
      r := filler.Accept(e.value);
      if !r.Going? { return; }
      rest := rest[1..];
      e := it.Next();
    }
    r := Going(());
  }

  /** `parse_apic_model_in`: a counting pass, slices of the counted sizes, and a filling pass into their slots. */
  method ParseApicModel(m: MadtTable) returns (r: Progress<Model>)
    requires WellFormed(m.entries)
    ensures r == ApicModel(m)
  {
    hide FillAll, CountAll, WellFormed, Entries;
    var counts := CountEntries(m);
    var filler, done := FillFromTable(m, SizesOf(counts));
    if done.Crash? { return Crash; }
    if done.Invalid? { return Invalid(done.error); }
    GoingIsExact(m.localApicAddress, Entries(m.entries));
    r := filler.Finish(Supports8259(m));
  }

  lemma GoingIsExact(start: u64, es: seq<Entry>)
    requires FillAll(SizesOf(CountAll(es)), start, es).Going?
    ensures IsExact(SizesOf(CountAll(es)), FillAll(SizesOf(CountAll(es)), start, es).value)
  {
    hide FillAll, CountAll, Contents;
    GoingMeansGood(SizesOf(CountAll(es)), start, es);
    FillCrashesIff(start, es);
  }

  /**
   For a well-formed table of faultless entries with at least one local APIC and no x2APIC entry, the parse
   succeeds; every list is the table's, in table order and complete; the first local APIC is the boot
   processor and all others are application processors; and the last address override, if any, is used.
   */
  lemma ApicModelIsExact(m: MadtTable)
    requires WellFormed(m.entries)
    requires var es := Entries(m.entries);
             AllGood(es) && CountAll(es).processors > 0 && Count(es, IsX2) == 0 && Count(es, IsX2Nmi) == 0
    ensures var es, r := Entries(m.entries), ApicModel(m);
            && r.Going? && r.value.localApicAddress == AddressOf(m.localApicAddress, es)
            && r.value.ioApics == IoApicsOf(es) && r.value.overrides == OverridesOf(es)
            && r.value.nmiSources == NmiSourcesOf(es) && r.value.nmiLines == NmiLinesOf(es)
            && |ProcessorsOf(es)| == CountAll(es).processors == |r.value.aps| + 1
            && r.value.boot == ProcessorOf(ProcessorsOf(es)[0], false)
            && forall k :: 0 <= k < |r.value.aps| ==> r.value.aps[k] == ProcessorOf(ProcessorsOf(es)[k + 1], true)
  {
    hide FillAll, CountAll, Count, WellFormed, Entries, ProcessorsOf, IoApicsOf, OverridesOf, NmiSourcesOf, NmiLinesOf;
    var es := Entries(m.entries);
    CountsMatch(es);
    FillCrashesIff(m.localApicAddress, es);
  }

  /**
   Every well-formed table, faulty or not. The parse panics exactly when the entries before the first fault
   need more room than was counted, or there is no fault and no processor; otherwise it fails with the first
   fault, if any. Without faults, room is missing exactly for x2APIC entries.
   */
  lemma ApicModelPanicsIff(m: MadtTable)
    requires WellFormed(m.entries)
    ensures var es := Entries(m.entries);
            var k, sizes := FirstFault(es), SizesOf(CountAll(es));
            var fits := Fits(sizes, Contents(m.localApicAddress, es[..k]));
            && (ApicModel(m).Crash? <==> !fits || (k == |es| && ProcessorsOf(es) == []))
            && (ApicModel(m).Invalid? <==> fits && k < |es|)
            && (ApicModel(m).Invalid? ==> ApicModel(m).error == Fault(es[k]).value)
            && (k == |es| ==> (fits <==> HasRoom(es)))
  {
    hide FillAll, CountAll, Count, WellFormed, Entries, ProcessorsOf, HasRoom, Fits, FirstFault;
    hide IoApicsOf, OverridesOf, NmiSourcesOf, NmiLinesOf;
    var es := Entries(m.entries);
    var k := FirstFault(es);
    FillOutcome(SizesOf(CountAll(es)), m.localApicAddress, es);
    if k == |es| {
      assert es[..k] == es;
      FillCrashesIff(m.localApicAddress, es);
    }
  }

  // ---- Choosing the model ----

  datatype Interrupts = UnknownModel | ApicInterrupts(model: Model)

  /** The first entry that is not a wakeup structure decides; SAPIC and GIC entries are not implemented. */
  function InterruptModel(m: MadtTable, es: seq<Entry>): Progress<Interrupts>
    requires WellFormed(m.entries)
    decreases |es|
  {
    if es == [] then Going(UnknownModel)
    else if es[0].MultiprocessorWakeup? then InterruptModel(m, es[1..])
    else if es[0].UnsupportedEntry? then Crash
    else match ApicModel(m)
      case Going(model) => Going(ApicInterrupts(model))
      case Invalid(error) => Invalid(error)
      case Crash => Crash
  }

  /** `parse_interrupt_model_in`. */
  method ParseInterruptModel(m: MadtTable) returns (r: Progress<Interrupts>)
    requires WellFormed(m.entries)
    ensures r == InterruptModel(m, Entries(m.entries))
  {
    hide ApicModel, WellFormed, Entries;
    ghost var es := Entries(m.entries);
    var it := new MadtEntryIter(m.entries);
    var e := it.Next();
    while e.Some?
      invariant it.Valid() && fresh(it)
      invariant es == if e.Some? then [e.value] + it.Rest() else []
      invariant InterruptModel(m, Entries(m.entries)) == InterruptModel(m, es)
      decreases if e.Some? then it.remaining + 1 else 0
    {
      assert es[1..] == it.Rest();
      if e.value.UnsupportedEntry? { return Crash; }
      if !e.value.MultiprocessorWakeup? {
        var model := ParseApicModel(m);
        return if model.Going? then Going(ApicInterrupts(model.value))
               else if model.Invalid? then Invalid(model.error)
               else Crash;
      }
      es := es[1..];
      e := it.Next();
    }
    r := Going(UnknownModel);
  }

  /**
   The first pass passes over a wakeup structure but the filling pass rejects it, so a table that has one
   and is not made of them alone never gives an interrupt model.
   */
  lemma WakeupDefeatsTheParse(m: MadtTable)
    requires WellFormed(m.entries) && MultiprocessorWakeup in Entries(m.entries)
    ensures !ApicModel(m).Going?
    ensures InterruptModel(m, Entries(m.entries)).Going? <==>
            forall k :: 0 <= k < |Entries(m.entries)| ==> Entries(m.entries)[k].MultiprocessorWakeup?
  {
    hide WellFormed, Entries, CountAll, SizesOf;
    var es := Entries(m.entries);
    if ApicModel(m).Going? {
      GoingMeansGood(SizesOf(CountAll(es)), m.localApicAddress, es);
    }
    ModelOnlyFromApic(m, es);
  }

  lemma {:induction false} ModelOnlyFromApic(m: MadtTable, es: seq<Entry>)
    requires WellFormed(m.entries) && !ApicModel(m).Going?
    ensures InterruptModel(m, es).Going? <==> forall k :: 0 <= k < |es| ==> es[k].MultiprocessorWakeup?
    decreases |es|
  {
    hide ApicModel;
    if es != [] {
      ModelOnlyFromApic(m, es[1..]);
      assert forall k :: 0 < k < |es| ==> es[k] == es[1..][k - 1];
    }
  }

  // ---- Tables that fail ----

  /** A local APIC followed by an x2APIC: the second processor has no slot, and the parse panics. */
  lemma UncountedProcessorPanics(address: u32, flags: u32, a: Entry, x: Entry)
    requires a.LocalApic? && x.LocalX2Apic?
    ensures Supported([a, x]) && WellFormed(EncodeTable([a, x]))
    ensures ApicModel(MadtTable(address, flags, EncodeTable([a, x]))).Crash?
  {
    hide WellFormed, Entries, EncodeTable, FillAll, Contents, Fits;
    var m, es := MadtTable(address, flags, EncodeTable([a, x])), [a, x];
    TableRoundTrip(es);
    ApicModelPanicsIff(m);
    assert AllGood(es);
    assert es[..1] == [a] && es[1..] == [x] && [x][1..] == [] && [a][..0] == [] && [a][1..] == [];
    if FirstFault(es) == |es| {
      assert CountAll([]).processors == 0 && CountAll([a]).processors == 1 && CountAll(es).processors == 1;
      assert Count([], IsX2) == 0 && Count([a], IsX2) == 0 && Count(es, IsX2) == 1;
    }
  }

  /** A wakeup structure before a local APIC: the first pass passes it over, and the parse then rejects it. */
  lemma WakeupTableFails(address: u32, flags: u32, a: Entry)
    requires a.LocalApic?
    ensures Supported([MultiprocessorWakeup, a]) && WellFormed(EncodeTable([MultiprocessorWakeup, a]))
    ensures var m := MadtTable(address, flags, EncodeTable([MultiprocessorWakeup, a]));
            InterruptModel(m, Entries(m.entries)) == Invalid(UnexpectedEntry)
  {
    hide WellFormed, Entries, EncodeTable, CountAll, SizesOf, Contents;
    var es := [MultiprocessorWakeup, a];
    var m := MadtTable(address, flags, EncodeTable(es));
    TableRoundTrip(es);
    EmptyContents(m.localApicAddress);
    assert es[..0] == [] && es[1..] == [a];
    FirstFaultStops(SizesOf(CountAll(es)), m.localApicAddress, es, 0);
  }

  // ---- What the lists hold, field by field ----

  /** A processor is in a state that its flag and its place decide. */
  predicate IsInState(p: Processor, flags: u32, isAp: bool) {
    && p.isAp == isAp
    && (p.state == Disabled <==> flags % 2 == 0)
    && (flags % 2 == 1 && !isAp ==> p.state == Running)
    && (flags % 2 == 1 && isAp ==> p.state == WaitingForSipi)
  }

  /** A processor has the entry's ids: that of the processor, and that of its local APIC. */
  predicate Describes(p: Processor, e: Entry, isAp: bool) {
    match e
    case LocalApic(processorId, apicId, flags) =>
      p.uid == processorId as nat && p.localApicId == apicId as nat && IsInState(p, flags, isAp)
    case LocalX2Apic(x2apicId, flags, processorUid) =>
      p.uid == processorUid && p.localApicId == x2apicId && IsInState(p, flags, isAp)
    case _ => false
  }

  /**
   In every parse that succeeds, faulty or not, the boot processor is the first processor entry and the others
   are those after it, each with its entry's ids and the state of its flag; and the legacy controllers are
   reported exactly if the table's flag says so.
   */
  lemma ModelDescribesProcessors(m: MadtTable)
    requires WellFormed(m.entries) && ApicModel(m).Going?
    ensures var ps, model := ProcessorsOf(Entries(m.entries)), ApicModel(m).value;
            && |ps| == |model.aps| + 1 && Describes(model.boot, ps[0], false)
            && (forall k :: 0 <= k < |model.aps| ==> Describes(model.aps[k], ps[k + 1], true))
            && (model.alsoHasLegacyPics <==> m.flags % 2 == 1)
  {
    hide FillAll, CountAll, WellFormed, Entries, ProcessorsOf, IoApicsOf, OverridesOf, NmiSourcesOf, NmiLinesOf, Fits;
    hide FirstFault;
    var es := Entries(m.entries);
    FillOutcome(SizesOf(CountAll(es)), m.localApicAddress, es);
    assert es[..|es|] == es;
    var ps := ProcessorsOf(es);
    DescribesProcessor(ps[0], false);
    var aps := ApicModel(m).value.aps;
    forall k | 0 <= k < |aps| ensures Describes(aps[k], ps[k + 1], true) { DescribesProcessor(ps[k + 1], true); }
  }

  lemma DescribesProcessor(e: Entry, isAp: bool)
    requires e.LocalApic? || e.LocalX2Apic?
    ensures Describes(ProcessorOf(e, isAp), e, isAp)
  {
  }

  /** An interrupt line has the entry's line, and its processor unless the entry is for all of them. */
  predicate DescribesLine(l: NmiLine, e: Entry) {
    match e
    case LocalApicNmi(id, line) => l.line == line && l.processor == (if id == 0xff then All else ProcessorUid(id))
    case X2ApicNmi(uid, line) =>
      l.line == line && l.processor == if uid == 0xffff_ffff then All else ProcessorUid(uid)
    case _ => false
  }

  /** Entry `j` is found in its list after the entries of its kind before it, with its own fields. */
  lemma {:induction false} ListedByField(es: seq<Entry>, j: nat)
    requires j < |es| && AllGood(es)
    ensures AllGood(es[..j])
    ensures var e, front := es[j], es[..j];
            match e
            case IoApic(id, address, base) =>
              var k := |IoApicsOf(front)|;
              k < |IoApicsOf(es)| && var i := IoApicsOf(es)[k];
                i.id == id && i.address == address && i.interruptBase == base
            case SourceOverride(_, irq, gsi, flags) =>
              var k := |OverridesOf(front)|;
              k < |OverridesOf(es)| && var i := OverridesOf(es)[k];
                i.isaSource == irq && i.gsi == gsi && flags % 16 == IntiBits(i.inti)
            case NmiSource(flags, gsi) =>
              var k := |NmiSourcesOf(front)|;
              k < |NmiSourcesOf(es)| && var i := NmiSourcesOf(es)[k]; i.gsi == gsi && flags % 16 == IntiBits(i.inti)
            case LocalApicNmi(_, _) =>
              var k := |NmiLinesOf(front)|; k < |NmiLinesOf(es)| && DescribesLine(NmiLinesOf(es)[k], e)
            case X2ApicNmi(_, _) =>
              var k := |NmiLinesOf(front)|; k < |NmiLinesOf(es)| && DescribesLine(NmiLinesOf(es)[k], e)
            case LocalApic(_, _, _) =>
              var k := |ProcessorsOf(front)|; k < |ProcessorsOf(es)| && ProcessorsOf(es)[k] == e
            case LocalX2Apic(_, _, _) =>
              var k := |ProcessorsOf(front)|; k < |ProcessorsOf(es)| && ProcessorsOf(es)[k] == e
            case _ => true
    decreases |es|
  {
    hide ParseIntiFlags;
    var last := |es| - 1;
    assert Fault(es[j]).None?;
    if j == last {
      if es[j].SourceOverride? { IntiFlagsSpell(es[j].intiFlags, ParseIntiFlags(es[j].intiFlags).value); }
      if es[j].NmiSource? { IntiFlagsSpell(es[j].intiFlags, ParseIntiFlags(es[j].intiFlags).value); }
    } else {
      assert es[..last][..j] == es[..j] && es[..last][j] == es[j];
      ListedByField(es[..last], j);
    }
  }

  /** The address is that of the last override, and the table's own if there is none. */
  lemma {:induction false} LastOverrideWins(start: u64, es: seq<Entry>, j: nat)
    requires j <= |es| && forall k :: j < k < |es| ==> !es[k].AddressOverride?
    ensures j < |es| && es[j].AddressOverride? ==> AddressOf(start, es) == es[j].localApicAddress
    ensures (forall k :: 0 <= k < |es| ==> !es[k].AddressOverride?) ==> AddressOf(start, es) == start
    decreases |es|
  {
    if es != [] && !es[|es| - 1].AddressOverride? {
      var front := es[..|es| - 1];
      LastOverrideWins(start, front, if j < |front| then j else |front|);
    }
  }

  /** What is accepted, and which error the rest gives. */
  lemma FaultsByField(e: Entry)
    ensures e.SourceOverride? ==>
              && (Fault(e).None? <==> e.bus == 0 && exists i :: IntiBits(i) == e.intiFlags as nat % 16)
              && (e.bus != 0 ==> Fault(e) == Some(InterruptOverrideEntryHasInvalidBus))
              && (e.bus == 0 && e.intiFlags % 4 == 2 ==> Fault(e) == Some(MpsIntiInvalidPolarity))
    ensures e.NmiSource? ==>
              && (Fault(e).None? <==> exists i :: IntiBits(i) == e.intiFlags as nat % 16)
              && (e.intiFlags % 4 == 2 ==> Fault(e) == Some(MpsIntiInvalidPolarity))
    ensures e.LocalApicNmi? || e.X2ApicNmi? ==>
              Fault(e) == if e.line == 0 || e.line == 1 then None else Some(InvalidLocalNmiLine)
    ensures e.MultiprocessorWakeup? || e.UnsupportedEntry? ==> Fault(e) == Some(UnexpectedEntry)
    ensures e.LocalApic? || e.LocalX2Apic? || e.IoApic? || e.AddressOverride? ==> Fault(e) == None
  {
    if e.SourceOverride? || e.NmiSource? {
      var r := ParseIntiFlags(e.intiFlags);
      forall i ensures r == Good(i) <==> e.intiFlags % 16 == IntiBits(i) { IntiFlagsSpell(e.intiFlags, i); }
      if r.Good? { assert IntiBits(r.value) == e.intiFlags as nat % 16; }
    }
  }

  /** The first entry that is no wakeup structure decides: an unsupported one panics, any other parses the table. */
  lemma {:induction false} FirstDecides(m: MadtTable, es: seq<Entry>, k: nat)
    requires WellFormed(m.entries) && k < |es| && !es[k].MultiprocessorWakeup?
    requires forall i :: 0 <= i < k ==> es[i].MultiprocessorWakeup?
    ensures es[k].UnsupportedEntry? ==> InterruptModel(m, es) == Crash
    ensures !es[k].UnsupportedEntry? && ApicModel(m).Going? ==>
              InterruptModel(m, es) == Going(ApicInterrupts(ApicModel(m).value))
    ensures !es[k].UnsupportedEntry? && ApicModel(m).Invalid? ==> InterruptModel(m, es) == Invalid(ApicModel(m).error)
    ensures !es[k].UnsupportedEntry? && ApicModel(m).Crash? ==> InterruptModel(m, es) == Crash
    decreases k
  {
    hide ApicModel, WellFormed;
    if k > 0 { FirstDecides(m, es[1..], k - 1); }
  }
}
