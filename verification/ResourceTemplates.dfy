/**
 Encoding resources, and concatenating templates (aml/src/expression.rs:209-257; section 6.4 of the ACPI
 specification).
 */
module ResourceTemplates {
  import opened Types
  import opened Bits
  import opened Resources

  // ---- The canonical encoding ----

  /** The descriptor a resource is written as. */
  datatype Form = ShortIrq | LongIrq | ExtendedIrq | DmaForm | IOForm | MemoryForm | WordSpace | DWordSpace | QWordSpace

  function One(b: bool): nat { if b then 1 else 0 }

  function Size(form: Form): nat
    requires form.WordSpace? || form.DWordSpace? || form.QWordSpace?
  {
    if form.WordSpace? then 2 else if form.DWordSpace? then 4 else 8
  }

  /** Which resources a form can hold. */
  predicate Fits(form: Form, r: Resource) {
    match form
    case ShortIrq =>
      r.Irq? && r.irq < 0x1_0000 && !r.isConsumer && r.trigger == EdgeTriggered && r.polarity == ActiveHigh
      && !r.isShared && !r.isWakeCapable
    case LongIrq => r.Irq? && r.irq < 0x1_0000 && !r.isConsumer
    case ExtendedIrq => r.Irq?
    case DmaForm => r.Dma?
    case IOForm => r.IOPort?
    case MemoryForm => r.FixedMemory?
    case _ =>
      r.AddressSpace? && var m := Pow256(Size(form));
      r.granularity < m && r.rangeMin < m && r.rangeMax < m && r.translationOffset < m && r.length < m
  }

  function IrqInfo(r: Resource): byte
    requires r.Irq?
  {
    One(r.trigger == EdgeTriggered) + 8 * One(r.polarity == ActiveLow) + 16 * One(r.isShared)
    + 32 * One(r.isWakeCapable)
  }

  function ExtendedInfo(r: Resource): byte
    requires r.Irq?
  {
    One(r.isConsumer) + 2 * One(r.trigger == EdgeTriggered) + 4 * One(r.polarity == ActiveLow) + 8 * One(r.isShared)
    + 16 * One(r.isWakeCapable)
  }

  function DmaOptions(r: Resource): byte
    requires r.Dma?
  {
    32 * (match r.speed case CompatibilityMode => 0 case TypeA => 1 case TypeB => 2 case TypeF => 3)
    + 4 * One(r.isBusMaster)
    + (match r.preference case Only8Bit => 0 case Both8And16Bit => 1 case Only16Bit => 2)
  }

  function SpaceFlags(r: Resource): byte
    requires r.AddressSpace?
  {
    2 * One(r.decode == Subtractive) + 4 * One(r.isMinimumFixed) + 8 * One(r.isMaximumFixed)
  }

  function SpaceType(r: Resource): byte
    requires r.AddressSpace?
  {
    match r.resourceType case MemoryRange => 0 case IORange => 1 case BusNumberRange => 2
  }

  function EncodeSpace(tag: byte, size: nat, r: Resource): Bytes
    requires r.AddressSpace? && (size == 2 || size == 4 || size == 8)
  {
    [tag, 3 + 5 * size, 0, SpaceType(r), SpaceFlags(r), 0]
    + LeBytes(r.granularity, size) + LeBytes(r.rangeMin, size) + LeBytes(r.rangeMax, size)
    + LeBytes(r.translationOffset, size) + LeBytes(r.length, size)
  }

  function Encode(form: Form, r: Resource): (b: Bytes)
    requires Fits(form, r)
    ensures b != []
  {
    match form
    case ShortIrq => [0x22] + LeBytes(r.irq, 2)
    case LongIrq => [0x23] + LeBytes(r.irq, 2) + [IrqInfo(r)]
    case ExtendedIrq => [0x89, 6, 0, ExtendedInfo(r), 1] + LeBytes(r.irq, 4)
    case DmaForm => [0x2a, r.channelMask, DmaOptions(r)]
    case IOForm =>
      var decodes: nat := One(r.decodesFullAddress);
      [0x47, decodes] + LeBytes(r.portMin, 2) + LeBytes(r.portMax, 2) + [r.baseAlignment, r.portCount]
    case MemoryForm =>
      var writable: nat := One(r.isWritable);
      [0x86, 9, 0, writable] + LeBytes(r.baseAddress, 4) + LeBytes(r.rangeLength, 4)
    case WordSpace => EncodeSpace(0x88, 2, r)
    case DWordSpace => EncodeSpace(0x87, 4, r)
    case QWordSpace => EncodeSpace(0x8a, 8, r)
  }

  // ---- Decoding inverts encoding ----

  lemma SmallItems(form: Form, r: Resource)
    requires Fits(form, r) && (form.ShortIrq? || form.LongIrq? || form.DmaForm? || form.IOForm?)
    ensures DecodeItem(Encode(form, r)) == Decoded(r)
  {
    Powers();
    hide LeBytes, LeValue, Pow256;
    var d := Encode(form, r);
    match form {
      case ShortIrq =>
        LeRoundTrip(r.irq, 2);
        assert d[1..3] == LeBytes(r.irq, 2);
      case LongIrq =>
        LeRoundTrip(r.irq, 2);
        assert d[1..3] == LeBytes(r.irq, 2);
      case DmaForm =>
      case IOForm =>
        LeRoundTrip(r.portMin, 2);
        LeRoundTrip(r.portMax, 2);
        assert d[2..4] == LeBytes(r.portMin, 2) && d[4..6] == LeBytes(r.portMax, 2);
    }
  }

  lemma LargeItems(form: Form, r: Resource)
    requires Fits(form, r) && (form.MemoryForm? || form.ExtendedIrq?)
    ensures DecodeItem(Encode(form, r)) == Decoded(r)
  {
    Powers();
    hide LeBytes, LeValue, Pow256;
    var d := Encode(form, r);
    if form.MemoryForm? {
      LeRoundTrip(r.baseAddress, 4);
      LeRoundTrip(r.rangeLength, 4);
      assert d[4..8] == LeBytes(r.baseAddress, 4) && d[8..12] == LeBytes(r.rangeLength, 4);
    } else {
      LeRoundTrip(r.irq, 4);
      assert d[5..9] == LeBytes(r.irq, 4);
    }
  }

  lemma SpaceItems(tag: byte, size: nat, r: Resource)
    requires r.AddressSpace? && (size == 2 || size == 4 || size == 8)
    requires var m := Pow256(size);
             r.granularity < m && r.rangeMin < m && r.rangeMax < m && r.translationOffset < m && r.length < m
    ensures AddressSpaceItem(EncodeSpace(tag, size, r), size) == Decoded(r)
  {
    hide LeBytes, LeValue, Pow256;
    var d := EncodeSpace(tag, size, r);
    LeRoundTrip(r.granularity, size);
    LeRoundTrip(r.rangeMin, size);
    LeRoundTrip(r.rangeMax, size);
    LeRoundTrip(r.translationOffset, size);
    LeRoundTrip(r.length, size);
    SixParts([tag, 3 + 5 * size, 0, SpaceType(r), SpaceFlags(r), 0], LeBytes(r.granularity, size),
             LeBytes(r.rangeMin, size), LeBytes(r.rangeMax, size), LeBytes(r.translationOffset, size),
             LeBytes(r.length, size));
  }

  /** The parts of a joined string are its slices. */
  lemma SixParts(h: Bytes, a: Bytes, b: Bytes, c: Bytes, d: Bytes, e: Bytes)
    ensures var s := h + a + b + c + d + e;
            var i, j, k, l := |h| + |a|, |h| + |a| + |b|, |h| + |a| + |b| + |c|, |h| + |a| + |b| + |c| + |d|;
            && s[..|h|] == h && s[|h|..i] == a && s[i..j] == b && s[j..k] == c && s[k..l] == d && s[l..l + |e|] == e
            && |s| == l + |e|
  {
  }

  lemma ItemRoundTrip(form: Form, r: Resource)
    requires Fits(form, r)
    ensures DecodeItem(Encode(form, r)) == Decoded(r)
  {
    match form {
      case ShortIrq => SmallItems(form, r);
      case LongIrq => SmallItems(form, r);
      case DmaForm => SmallItems(form, r);
      case IOForm => SmallItems(form, r);
      case MemoryForm => LargeItems(form, r);
      case ExtendedIrq => LargeItems(form, r);
      case WordSpace => SpaceItems(0x88, 2, r);
      case DWordSpace => SpaceItems(0x87, 4, r);
      case QWordSpace => SpaceItems(0x8a, 8, r);
    }
  }

  /** Descriptors that may end in an optional part. */
  predicate MayGrow(form: Form) {
    form.ExtendedIrq? || form.WordSpace? || form.DWordSpace? || form.QWordSpace?
  }

  /** Bytes after an address space or an interrupt (a resource source) are not read; elsewhere they are an error. */
  lemma LongerDescriptors(form: Form, r: Resource, extra: Bytes)
    requires Fits(form, r) && extra != [] && (form.ShortIrq? ==> |extra| > 1)
    ensures Encode(form, r) + extra != []
    ensures DecodeItem(Encode(form, r) + extra) ==
            if MayGrow(form) then Decoded(r) else Failed(ResourceDescriptorTooLong)
  {
    hide LeBytes, LeValue, Pow256;
    var d, long := Encode(form, r), Encode(form, r) + extra;
    ItemRoundTrip(form, r);
    match form
    case WordSpace => LongerSpace(d, extra, 2);
    case DWordSpace => LongerSpace(d, extra, 4);
    case QWordSpace => LongerSpace(d, extra, 8);
    case ExtendedIrq => assert long[5..9] == d[5..9];
    case _ =>
  }

  lemma LongerSpace(d: Bytes, extra: Bytes, size: nat)
    requires (size == 2 || size == 4 || size == 8) && |d| == 6 + size * 5
    ensures AddressSpaceItem(d + extra, size) == AddressSpaceItem(d, size)
  {
    hide LeValue, Pow256;
    forall k: nat | k < 5 ensures Chunk(d + extra, size, k) == Chunk(d, size, k) {
      assert (d + extra)[6 + k * size..6 + (k + 1) * size] == d[6 + k * size..6 + (k + 1) * size];
    }
  }

  /** A descriptor that is cut short is an error, except that three bytes of an interrupt with flags are one without. */
  lemma ShorterDescriptors(form: Form, r: Resource, k: nat)
    requires Fits(form, r) && 0 < k < |Encode(form, r)| && !(form.LongIrq? && k == 3)
    ensures DecodeItem(Encode(form, r)[..k]) == Failed(ResourceDescriptorTooShort)
  {
    hide LeBytes, LeValue, Pow256;
    var d, short := Encode(form, r), Encode(form, r)[..k];
    assert short[0] == d[0];
  }

  /** Types that are reserved are an error, whatever follows them. */
  lemma ReservedTypes(d: Bytes)
    requires d != []
    ensures d[0] < 0x20 || 0x58 <= d[0] < 0x70 || d[0] == 0x80 || d[0] >= 0x93 ==>
              DecodeItem(d) == Failed(ReservedResourceType)
    ensures 0x78 <= d[0] < 0x80 <==> DecodeItem(d) == EndTag
    ensures d[0] in [0x87, 0x88, 0x8a] && |d| >= 46 && 3 <= d[3] <= 191 ==>
              DecodeItem(d) == Failed(ReservedResourceType)
  {
    hide LeValue;
  }

  lemma SpanOfEncoding(form: Form, r: Resource, rest: Bytes)
    requires Fits(form, r)
    ensures Span(Encode(form, r) + rest) == Some(|Encode(form, r)|)
  {
    hide LeBytes, LeValue, IrqInfo, ExtendedInfo, DmaOptions, SpaceFlags, SpaceType;
    var b := Encode(form, r) + rest;
    if b[0] >= 128 {
      assert b[1..3] == [b[1], 0];
      LowByte(b[1]);
    }
  }

  lemma LowByte(low: byte)
    ensures LeValue([low, 0]) == low
  {
    assert [low, 0][1..] == [0] && LeValue([0]) == 0;
  }

  /** Decoding a resource's canonical encoding, whatever follows, gives the resource and what follows. */
  lemma ResourceRoundTrip(form: Form, r: Resource, rest: Bytes)
    requires Fits(form, r)
    ensures FirstItem(Encode(form, r) + rest) == (Decoded(r), rest)
  {
    hide Encode, DecodeItem, Span;
    var e := Encode(form, r);
    ItemRoundTrip(form, r);
    SpanOfEncoding(form, r, rest);
    assert (e + rest)[..|e|] == e && (e + rest)[|e|..] == rest;
  }

  // ---- Templates ----

  /** Bytes that are descriptors end to end, decoding to `rs`. */
  predicate IsRun(bytes: Bytes, rs: seq<Resource>)
    decreases |bytes|
  {
    if bytes == [] then rs == [] else
      var (item, rest) := FirstItem(bytes);
      item.Decoded? && rs != [] && item.res == rs[0] && IsRun(rest, rs[1..])
  }

  /** Empty, or a run closed by a two-byte end tag with any checksum. */
  predicate IsTemplate(bytes: Bytes, rs: seq<Resource>) {
    (bytes == [] && rs == []) ||
    (|bytes| >= 2 && bytes[|bytes| - 2] == 0x79 && IsRun(bytes[..|bytes| - 2], rs))
  }

  /** What follows a descriptor does not change how it decodes. */
  lemma FirstItemIsLocal(bytes: Bytes, more: Bytes)
    requires bytes != [] && FirstItem(bytes).0.Decoded?
    ensures FirstItem(bytes + more) == (FirstItem(bytes).0, FirstItem(bytes).1 + more)
  {
    hide DecodeItem;
    var n := Span(bytes).value;
    assert (bytes + more)[0] == bytes[0];
    if bytes[0] >= 128 { assert (bytes + more)[1..3] == bytes[1..3]; }
    assert Span(bytes + more) == Some(n);
    assert (bytes + more)[..n] == bytes[..n] && (bytes + more)[n..] == bytes[n..] + more;
  }

  /** Runs can be put end to end. */
  lemma {:induction false} RunThenDecode(run: Bytes, rs: seq<Resource>, more: Bytes)
    requires IsRun(run, rs)
    ensures DecodeList(run + more) == Append(rs, DecodeList(more))
    decreases |run|
  {
    hide FirstItem;
    if run == [] {
      assert run + more == more;
      AppendNothing(DecodeList(more));
    } else {
      FirstItemIsLocal(run, more);
      var rest := FirstItem(run).1;
      RunThenDecode(rest, rs[1..], more);
      AppendFirst(rs, DecodeList(more));
    }
  }

  lemma AppendNothing(t: Template)
    ensures Append([], t) == t
  {
    if t.Listed? { assert [] + t.rs == t.rs; }
  }

  lemma AppendFirst(rs: seq<Resource>, t: Template)
    requires rs != []
    ensures Cons(rs[0], Append(rs[1..], t)) == Append(rs, t)
  {
    if t.Listed? { assert [rs[0]] + (rs[1..] + t.rs) == rs + t.rs; }
  }

  lemma EndTagStops(checksum: byte)
    ensures DecodeList([0x79, checksum]) == Listed([])
  {
    assert [0x79, checksum][..2] == [0x79, checksum];
  }

  lemma TemplateDecodes(bytes: Bytes, rs: seq<Resource>)
    requires IsTemplate(bytes, rs)
    ensures DecodeList(bytes) == Listed(rs)
  {
    hide IsRun, DecodeList;
    if bytes != [] {
      var run := bytes[..|bytes| - 2];
      var tag := [0x79, bytes[|bytes| - 1]];
      assert bytes == run + tag;
      RunThenDecode(run, rs, tag);
      EndTagStops(bytes[|bytes| - 1]);
      assert rs + [] == rs;
    } else {
      assert DecodeList([]) == Listed([]) by { EmptyList(); }
    }
  }

  lemma EmptyList()
    ensures DecodeList([]) == Listed([])
  {
  }

  datatype Written = Written(form: Form, res: Resource)

  predicate AllFit(items: seq<Written>) { forall k :: 0 <= k < |items| ==> Fits(items[k].form, items[k].res) }

  function EncodeAll(items: seq<Written>): Bytes
    requires AllFit(items)
    decreases |items|
  {
    if items == [] then [] else Encode(items[0].form, items[0].res) + EncodeAll(items[1..])
  }

  function ResourcesOf(items: seq<Written>): seq<Resource> {
    seq(|items|, k requires 0 <= k < |items| => items[k].res)
  }

  /** Any resources, written in any forms that fit them and closed by an end tag, are a template of them. */
  lemma EncodedIsTemplate(items: seq<Written>, checksum: byte)
    requires AllFit(items)
    ensures IsTemplate(EncodeAll(items) + [0x79, checksum], ResourcesOf(items))
  {
    EncodedIsRun(items);
    var bytes := EncodeAll(items) + [0x79, checksum];
    assert bytes[..|bytes| - 2] == EncodeAll(items);
  }

  lemma {:induction false} EncodedIsRun(items: seq<Written>)
    requires AllFit(items)
    ensures IsRun(EncodeAll(items), ResourcesOf(items))
    decreases |items|
  {
    hide Encode, FirstItem, Fits;
    if items != [] {
      ResourceRoundTrip(items[0].form, items[0].res, EncodeAll(items[1..]));
      EncodedIsRun(items[1..]);
      assert ResourcesOf(items)[1..] == ResourcesOf(items[1..]);
    }
  }

  // ---- Concatenation ----

  function Sum(s: Bytes): nat
    decreases |s|
  {
    if s == [] then 0 else
      var last: nat := s[|s| - 1];
      Sum(s[..|s| - 1]) + last
  }

  function Strip(s: Bytes): Bytes
    requires |s| != 1
  {
    if s == [] then [] else s[..|s| - 2]
  }

  /** The checksum byte that makes a sum come to zero in eight bits. */
  function Negated(sum: nat): byte {
    var n: nat := (256 - sum % 256) % 256;
    n
  }

  function Concatenated(left: Bytes, right: Bytes): Bytes
    requires |left| != 1 && |right| != 1
  {
    var tagged := Strip(left) + Strip(right) + [0x79];
    tagged + [Negated(Sum(tagged))]
  }

  /** `def_concat_res`, on the contents of two distinct buffers. */
  method ConcatRes(left: Bytes, right: Bytes) returns (r: Result<Bytes>)
    ensures if |left| == 1 || |right| == 1 then r == Err(ResourceDescriptorTooShort)
            else r == Ok(Concatenated(left, right))
  {
    if |left| == 1 || |right| == 1 { return Err(ResourceDescriptorTooShort); }
    var result: Bytes := [];
    result := result + (if |left| == 0 then [] else left[..|left| - 2]);
    result := result + (if |right| == 0 then [] else right[..|right| - 2]);
    result := result + [0x79];
    assert result == Strip(left) + Strip(right) + [0x79];
    var checksum := Checksum(result);
    r := Ok(result + [Negated(checksum)]);
  }

  /** The fold of wrapping additions. */
  method Checksum(s: Bytes) returns (checksum: nat)
    ensures checksum == Sum(s) % 256
  {
    checksum := 0;
    for k := 0 to |s|
      invariant checksum == Sum(s[..k]) % 256
    {
      assert s[..k + 1][..k] == s[..k];
      var b: nat := s[k];
      checksum := (checksum + b) % 256;
    }
    assert s[..|s|] == s;
  }

  /** Decoding the concatenation of two templates gives the left resources followed by the right ones. */
  lemma ConcatenationConcatenates(left: Bytes, right: Bytes, ls: seq<Resource>, rs: seq<Resource>)
    requires IsTemplate(left, ls) && IsTemplate(right, rs)
    ensures |left| != 1 && |right| != 1
    ensures DecodeList(left) == Listed(ls) && DecodeList(right) == Listed(rs)
    ensures DecodeList(Concatenated(left, right)) == Listed(ls + rs)
    ensures IsTemplate(Concatenated(left, right), ls + rs)
    ensures Sum(Concatenated(left, right)) % 256 == 0
  {
    hide DecodeList, IsRun, Sum;
    TemplateDecodes(left, ls);
    TemplateDecodes(right, rs);
    var a, b := Strip(left), Strip(right);
    EmptyRun();
    RunsJoin(a, ls, b, rs);
    var whole := Concatenated(left, right);
    assert whole[..|whole| - 2] == a + b;
    assert IsTemplate(whole, ls + rs);
    TemplateDecodes(whole, ls + rs);
    ChecksumIsZero(a + b + [0x79]);
  }

  lemma EmptyRun()
    ensures IsRun([], [])
  {
  }

  lemma {:induction false} RunsJoin(a: Bytes, ls: seq<Resource>, b: Bytes, rs: seq<Resource>)
    requires IsRun(a, ls) && IsRun(b, rs)
    ensures IsRun(a + b, ls + rs)
    decreases |a|
  {
    hide FirstItem;
    if a == [] {
      assert a + b == b && ls + rs == rs;
    } else {
      FirstItemIsLocal(a, b);
      RunsJoin(FirstItem(a).1, ls[1..], b, rs);
      assert (ls + rs)[1..] == ls[1..] + rs;
    }
  }

  lemma ChecksumIsZero(tagged: Bytes)
    ensures Sum(tagged + [Negated(Sum(tagged))]) % 256 == 0
  {
    hide Negated;
    var whole := tagged + [Negated(Sum(tagged))];
    assert whole[..|whole| - 1] == tagged;
    NegatedCancels(Sum(tagged));
  }

  lemma NegatedCancels(sum: nat)
    ensures (sum + Negated(sum) as nat) % 256 == 0
  {
    var q, r := sum / 256, sum % 256;
    assert sum == 256 * q + r;
    if r == 0 {
      assert Negated(sum) == 0;
    } else {
      assert Negated(sum) == 256 - r;
      assert sum + (256 - r) == 256 * (q + 1);
    }
  }
}
