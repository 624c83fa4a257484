/** Resource templates (aml/src/resource.rs:11-150, 195-565; section 6.4 of the ACPI specification). */
module Resources {
  import opened Types
  import opened Bits

  // ---- Resources ----

  datatype Trigger = EdgeTriggered | LevelTriggered
  datatype Polarity = ActiveHigh | ActiveLow
  datatype AddressType = MemoryRange | IORange | BusNumberRange
  datatype Decode = Additive | Subtractive
  datatype DmaSpeed = CompatibilityMode | TypeA | TypeB | TypeF
  datatype DmaPreference = Only8Bit | Both8And16Bit | Only16Bit

  datatype Resource =
    | Irq(isConsumer: bool, trigger: Trigger, polarity: Polarity, isShared: bool, isWakeCapable: bool, irq: u32)
    | AddressSpace(resourceType: AddressType, isMaximumFixed: bool, isMinimumFixed: bool, decode: Decode,
                   granularity: u64, rangeMin: u64, rangeMax: u64, translationOffset: u64, length: u64)
    | FixedMemory(isWritable: bool, baseAddress: u32, rangeLength: u32)
    | IOPort(decodesFullAddress: bool, portMin: u16, portMax: u16, baseAlignment: byte, portCount: byte)
    | Dma(channelMask: byte, speed: DmaSpeed, isBusMaster: bool, preference: DmaPreference)

  // ---- Decoding one descriptor ----

  /** What one descriptor's own bytes decode to; `Panics` stands for the branches that panic. */
  datatype Item = Decoded(res: Resource) | EndTag | Failed(error: AmlError) | Panics

  /** The bit of a byte whose value is `p`. */
  predicate Flag(b: byte, p: nat)
    requires p > 0
  {
    var n: nat := b;
    n / p % 2 == 1
  }

  function FixedMemoryItem(d: Bytes): Item {
    if |d| < 12 then Failed(ResourceDescriptorTooShort)
    else if |d| > 12 then Failed(ResourceDescriptorTooLong)
    else Decoded(FixedMemory(Flag(d[3], 1), Le32(d[4..8]), Le32(d[8..12])))
  }

  function AddressSpaceItem(d: Bytes, size: nat): Item
    requires size == 2 || size == 4 || size == 8
  {
    if |d| < 6 + size * 5 then Failed(ResourceDescriptorTooShort)
    else if 3 <= d[3] <= 191 then Failed(ReservedResourceType)
    else if d[3] >= 192 then Panics
    else
      Decoded(AddressSpace(
        if d[3] == 0 then MemoryRange else if d[3] == 1 then IORange else BusNumberRange,
        Flag(d[4], 8), Flag(d[4], 4), if Flag(d[4], 2) then Subtractive else Additive,
        Chunk(d, size, 0), Chunk(d, size, 1), Chunk(d, size, 2), Chunk(d, size, 3), Chunk(d, size, 4)))
  }

  /** The `k`-th address field. */
  function Chunk(d: Bytes, size: nat, k: nat): u64
    requires (size == 2 || size == 4 || size == 8) && k < 5 && 6 + size * 5 <= |d|
  {
    var s := d[6 + k * size..6 + (k + 1) * size];
    LeValueBound(s, 8);
    LeValue(s)
  }

  function IrqItem(d: Bytes): Item {
    if |d| <= 2 then Failed(ResourceDescriptorTooShort)
    else if |d| == 3 then Decoded(Irq(false, EdgeTriggered, ActiveHigh, false, false, Le16(d[1..3])))
    else if |d| == 4 then
      Decoded(Irq(false, if Flag(d[3], 1) then EdgeTriggered else LevelTriggered,
                  if Flag(d[3], 8) then ActiveLow else ActiveHigh, Flag(d[3], 16), Flag(d[3], 32), Le16(d[1..3])))
    else Failed(ResourceDescriptorTooLong)
  }

  function DmaItem(d: Bytes): Item {
    if |d| < 3 then Failed(ResourceDescriptorTooShort)
    else if |d| > 3 then Failed(ResourceDescriptorTooLong)
    else
      var options: nat := d[2];
      var speed := options / 32 % 4;
      var preference := options % 4;
      if preference == 3 then Panics
      else
        Decoded(Dma(d[1],
                    if speed == 0 then CompatibilityMode else if speed == 1 then TypeA
                    else if speed == 2 then TypeB else TypeF,
                    Flag(d[2], 4),
                    if preference == 0 then Only8Bit else if preference == 1 then Both8And16Bit else Only16Bit))
  }

  function IOPortItem(d: Bytes): Item {
    if |d| < 8 then Failed(ResourceDescriptorTooShort)
    else if |d| > 8 then Failed(ResourceDescriptorTooLong)
    else Decoded(IOPort(Flag(d[1], 1), Le16(d[2..4]), Le16(d[4..6]), d[6], d[7]))
  }

  /** Bit 2 set means active low, as the code has it (its comment says the reverse). */
  function ExtendedInterruptItem(d: Bytes): Item {
    if |d| < 9 then Failed(ResourceDescriptorTooShort)
    else if d[4] != 1 then Panics
    else
      Decoded(Irq(Flag(d[3], 1), if Flag(d[3], 2) then EdgeTriggered else LevelTriggered,
                  if Flag(d[3], 4) then ActiveLow else ActiveHigh, Flag(d[3], 8), Flag(d[3], 16), Le32(d[5..9])))
  }

  /** The branch on the descriptor's type; large types have bit 7 set. */
  function DecodeItem(d: Bytes): Item
    requires d != []
  {
    var tag: nat := d[0];
    if tag >= 128 then
      var typ := tag - 128;
      if typ == 0x06 then FixedMemoryItem(d)
      else if typ == 0x07 then AddressSpaceItem(d, 4)
      else if typ == 0x08 then AddressSpaceItem(d, 2)
      else if typ == 0x09 then ExtendedInterruptItem(d)
      else if typ == 0x0a then AddressSpaceItem(d, 8)
      else if typ == 0x00 || typ >= 0x13 then Failed(ReservedResourceType)
      else Panics
    else
      var typ := tag / 8;
      if typ <= 0x03 || 0x0b <= typ <= 0x0d then Failed(ReservedResourceType)
      else if typ == 0x04 then IrqItem(d)
      else if typ == 0x05 then DmaItem(d)
      else if typ == 0x08 then IOPortItem(d)
      else if typ == 0x0f then EndTag
      else Panics
  }

  /** The polarity the code's comment gives an extended interrupt. */
  function CommentedPolarity(d: Bytes): Polarity
    requires |d| > 3
  {
    if Flag(d[3], 4) then ActiveHigh else ActiveLow
  }

  /** No extended interrupt is decoded with the polarity the comment gives it. */
  lemma CommentedPolarityIsReversed(d: Bytes)
    requires d != [] && d[0] == 0x89 && DecodeItem(d).Decoded?
    ensures |d| >= 9 && DecodeItem(d).res.Irq? && DecodeItem(d).res.polarity != CommentedPolarity(d)
  {
  }

  /** How many bytes the first descriptor spans, unless the stream is too short to say or to hold it. */
  function Span(bytes: Bytes): (n: Option<nat>)
    requires bytes != []
    ensures n.Some? ==> 0 < n.value <= |bytes|
  {
    var tag: nat := bytes[0];
    if tag >= 128 then
      if |bytes| < 3 then None else
        var n := Le16(bytes[1..3]) as nat + 3;
        if n <= |bytes| then Some(n) else None
    else
      var n := tag % 8 + 1;
      if n <= |bytes| then Some(n) else None
  }

  /** `resource_descriptor`: the item, and the bytes after it. */
  function FirstItem(bytes: Bytes): (r: (Item, Bytes))
    requires bytes != []
    ensures r.0.Decoded? ==> |r.1| < |bytes| && r.1 == bytes[|bytes| - |r.1|..]
  {
    match Span(bytes)
    case None => (Panics, [])
    case Some(n) => (DecodeItem(bytes[..n]), bytes[n..])
  }

  // ---- Decoding a list ----

  datatype Template = Listed(rs: seq<Resource>) | Broken(error: AmlError) | Crashed

  function Cons(r: Resource, t: Template): Template { if t.Listed? then Listed([r] + t.rs) else t }

  function DecodeList(bytes: Bytes): Template
    decreases |bytes|
  {
    if bytes == [] then Listed([]) else
      var (item, rest) := FirstItem(bytes);
      match item
      case Decoded(r) => Cons(r, DecodeList(rest))
      case EndTag => Listed([])
      case Failed(e) => Broken(e)
      case Panics => Crashed
  }

  datatype Descriptor = BufferDescriptor(bytes: Bytes) | NoBuffer(typ: AmlType)

  /** `resource_descriptor_list`, on the inputs on which it returns at all. */
  method ResourceDescriptorList(descriptor: Descriptor) returns (r: Result<seq<Resource>>)
    requires descriptor.BufferDescriptor? ==> !DecodeList(descriptor.bytes).Crashed?
    ensures match descriptor
            case NoBuffer(typ) => r == Err(IncompatibleValueConversion(typ, BufferType))
            case BufferDescriptor(bytes) =>
              match DecodeList(bytes)
              case Listed(rs) => r == Ok(rs)
              case Broken(e) => r == Err(e)
              case Crashed => false
  {
    if descriptor.NoBuffer? { return Err(IncompatibleValueConversion(descriptor.typ, BufferType)); }
    var bytes := descriptor.bytes;
    var descriptors: seq<Resource> := [];
    while |bytes| > 0
      invariant DecodeList(descriptor.bytes) == Append(descriptors, DecodeList(bytes))
      decreases |bytes|
    {
      hide FirstItem;
      assert DecodeList(bytes) != Crashed;
      var (item, rest) := FirstItem(bytes);
      match item {
        case Decoded(res) =>
          AppendCons(descriptors, res, DecodeList(rest));
          descriptors := descriptors + [res];
          bytes := rest;
        case EndTag =>
          assert descriptors + [] == descriptors;
          return Ok(descriptors);
        case Failed(e) => return Err(e);
        case Panics => assert false;
      }
    }
    assert descriptors + [] == descriptors;
    r := Ok(descriptors);
  }

  function Append(rs: seq<Resource>, t: Template): Template { if t.Listed? then Listed(rs + t.rs) else t }

  lemma AppendCons(rs: seq<Resource>, r: Resource, t: Template)
    ensures Append(rs, Cons(r, t)) == Append(rs + [r], t)
  {
    if t.Listed? { assert rs + ([r] + t.rs) == rs + [r] + t.rs; }
  }
}
