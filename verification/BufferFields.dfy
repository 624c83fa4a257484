/** Bit fields over shared byte buffers (aml/src/value.rs:274-292, 505-582, aml/src/term_object.rs:180-390). */
module BufferFields {
  import opened Types
  import opened Bits

  const U64_COUNT: nat := 0x1_0000_0000_0000_0000

  // ---- A store, as a value ----

  /** What a store through a field does: `length` bits at `offset`, taken from `source`. */
  datatype FieldStore = FieldStore(offset: nat, length: nat, source: Bytes)

  predicate InBounds(st: FieldStore, size: nat) { st.offset + st.length <= 8 * size }

  predicate AllInBounds(stores: seq<FieldStore>, size: nat) {
    forall k :: 0 <= k < |stores| ==> InBounds(stores[k], size)
  }

  predicate Covers(st: FieldStore, i: nat) { st.offset <= i < st.offset + st.length }

  function Apply(s: Bytes, st: FieldStore): (r: Bytes)
    requires InBounds(st, |s|)
    ensures |r| == |s|
  {
    WriteBits(s, st.offset, st.length, st.source)
  }

  function ApplyAll(s: Bytes, stores: seq<FieldStore>): (r: Bytes)
    requires AllInBounds(stores, |s|)
    ensures |r| == |s|
    decreases |stores|
  {
    if stores == [] then s else
      var last := |stores| - 1;
      Apply(ApplyAll(s, stores[..last]), stores[last])
  }

  /** Store `k` covers bit `i`, and none after it does. */
  predicate IsLastCover(stores: seq<FieldStore>, i: nat, k: int) {
    0 <= k < |stores| && Covers(stores[k], i) && forall m :: k < m < |stores| ==> !Covers(stores[m], i)
  }

  /**
   After any sequence of stores each bit is what the last store covering it put there, its source truncated
   or zero-extended to the field.
   */
  lemma {:induction false} LastStoreWins(s: Bytes, stores: seq<FieldStore>, i: nat, k: int)
    requires i < 8 * |s| && AllInBounds(stores, |s|) && IsLastCover(stores, i, k)
    ensures Bit(ApplyAll(s, stores), i) == SourceBit(stores[k].source, i - stores[k].offset)
    decreases |stores|
  {
    hide Bit, SourceBit;
    BitAfterLast(s, stores, i);
    if k < |stores| - 1 {
      assert !Covers(stores[|stores| - 1], i);
      LastStoreWins(s, stores[..|stores| - 1], i, k);
    }
  }

  /** A bit that no store covers is unchanged. */
  lemma {:induction false} UncoveredIsUnchanged(s: Bytes, stores: seq<FieldStore>, i: nat)
    requires i < 8 * |s| && AllInBounds(stores, |s|)
    requires forall k :: 0 <= k < |stores| ==> !Covers(stores[k], i)
    ensures Bit(ApplyAll(s, stores), i) == Bit(s, i)
    decreases |stores|
  {
    hide Bit, SourceBit;
    if stores != [] {
      BitAfterLast(s, stores, i);
      UncoveredIsUnchanged(s, stores[..|stores| - 1], i);
    }
  }

  lemma BitAfterLast(s: Bytes, stores: seq<FieldStore>, i: nat)
    requires i < 8 * |s| && AllInBounds(stores, |s|) && stores != []
    ensures var last := |stores| - 1;
            Bit(ApplyAll(s, stores), i) ==
            if Covers(stores[last], i) then SourceBit(stores[last].source, i - stores[last].offset)
            else Bit(ApplyAll(s, stores[..last]), i)
  {
    hide Bit, WriteBits, SourceBit;
    var last := |stores| - 1;
    var st := stores[last];
    BitAfterWrite(ApplyAll(s, stores[..last]), st.offset, st.length, st.source, i);
  }

  // ---- Reading ----

  function FieldBits(s: Bytes, offset: nat, length: nat): (bits: seq<bool>)
    requires offset + length <= 8 * |s|
    ensures |bits| == length
  {
    seq(length, j requires 0 <= j < length => Bit(s, offset + j))
  }

  /** A read is the little-endian value of the field's bits. */
  lemma ReadIsLittleEndian(s: Bytes, offset: nat, length: nat)
    requires offset + length <= 8 * |s|
    ensures var n := ValueOf(FieldBits(s, offset, length));
            n < Pow2(length) && forall j :: 0 <= j < length ==> TestBit(n, j) == Bit(s, offset + j)
  {
    var bits := FieldBits(s, offset, length);
    ValueOfFits(bits);
    forall j | 0 <= j < length ensures TestBit(ValueOf(bits), j) == Bit(s, offset + j) { TestValueOf(bits, j); }
  }

  /** A field of whole bytes reads as the little-endian number those bytes spell. */
  lemma ReadOfBytes(s: Bytes, index: nat, count: nat)
    requires index + count <= |s|
    ensures ValueOf(FieldBits(s, 8 * index, 8 * count)) == LeValue(s[index..index + count])
  {
    var bits := FieldBits(s, 8 * index, 8 * count);
    var t := s[index..index + count];
    forall j | 0 <= j < |bits| ensures bits[j] == TestBit(LeValue(t), j) {
      LeValueBit(t, j);
      var b, m := j / 8, j % 8;
      assert (8 * index + j) / 8 == index + b && (8 * index + j) % 8 == m;
      assert t[b] == s[index + b];
      assert bits[j] == Bit(s, 8 * index + j);
    }
    ValueOfBits(bits, LeValue(t));
    LeValueFits(t);
    SmallMod(LeValue(t), Pow2(8 * count));
  }

  lemma SmallMod(n: nat, m: nat)
    requires n < m
    ensures n % m == n
  {
  }

  /** Storing an integer and reading the field back gives the integer modulo 2^length. */
  lemma ReadAfterIntegerStore(s: Bytes, offset: nat, length: nat, n: u64)
    requires offset + length <= 8 * |s| && length <= 64
    ensures var s' := WriteBits(s, offset, length, LeBytes(n, 8));
            ValueOf(FieldBits(s', offset, length)) == n % Pow2(length)
  {
    hide Bit, WriteBits;
    var s' := WriteBits(s, offset, length, LeBytes(n, 8));
    var bits := FieldBits(s', offset, length);
    forall j | 0 <= j < |bits| ensures bits[j] == TestBit(n, j) {
      BitAfterWrite(s, offset, length, LeBytes(n, 8), offset + j);
      LeBytesBit(n, 8, j);
    }
    ValueOfBits(bits, n);
  }

  // ---- Fields over heap buffers ----

  /** A field holds a reference to its buffer, so all fields over one buffer, and the buffer itself, share it. */
  datatype BufferField = BufferField(buffer: array<byte>, offset: nat, length: nat)

  datatype FieldValue =
    | IntegerValue(n: u64)
    | BooleanValue(b: bool)
    | BufferValue(bytes: array<byte>)
    | OtherValue(typ: AmlType)

  /** The kinds of field-creating operators and the bits they select; byte indices are multiplied in 64 bits. */
  datatype FieldKind = BitField | ByteField | WordField | DWordField | QWordField | AnyField(bits: u64)

  function Create(kind: FieldKind, buffer: array<byte>, index: u64): BufferField {
    var byteOffset: nat := (index as nat * 8) % U64_COUNT;
    match kind
    case BitField => BufferField(buffer, index, 1)
    case ByteField => BufferField(buffer, byteOffset, 8)
    case WordField => BufferField(buffer, byteOffset, 16)
    case DWordField => BufferField(buffer, byteOffset, 32)
    case QWordField => BufferField(buffer, byteOffset, 64)
    case AnyField(bits) => BufferField(buffer, index, bits)
  }

  /** The bytes a byte-indexed field spans. */
  function Width(kind: FieldKind): nat {
    match kind
    case ByteField => 1
    case WordField => 2
    case DWordField => 4
    case QWordField => 8
    case _ => 0
  }

  /** A byte-indexed field inside its buffer selects exactly its bytes, and reads as their little-endian value. */
  lemma CreatedFieldReadsBytes(kind: FieldKind, buffer: array<byte>, index: u64, s: Bytes)
    requires Width(kind) > 0 && index as nat + Width(kind) <= |s| && 8 * |s| < U64_COUNT
    ensures var f := Create(kind, buffer, index);
            && f.buffer == buffer && f.offset == 8 * index as nat && f.length == 8 * Width(kind)
            && f.offset + f.length <= 8 * |s|
            && ValueOf(FieldBits(s, f.offset, f.length)) == LeValue(s[index..index as nat + Width(kind)])
  {
    hide LeValue, ValueOf, FieldBits;
    SmallMod(index as nat * 8, U64_COUNT);
    ReadOfBytes(s, index, Width(kind));
  }

  predicate CoversBit(field: BufferField, i: int) { field.offset <= i < field.offset + field.length }

  /** A bit field covers the bit at its index and no other, and reads as that bit. */
  lemma BitFieldIsOneBit(buffer: array<byte>, index: u64, s: Bytes)
    requires index < 8 * |s|
    ensures var f := Create(BitField, buffer, index);
            && f.buffer == buffer && f.offset + f.length <= 8 * |s|
            && (forall i :: CoversBit(f, i) <==> i == index as nat)
            && ValueOf(FieldBits(s, f.offset, f.length)) == if Bit(s, index) then 1 else 0
  {
    hide Bit;
    var f := Create(BitField, buffer, index);
    var bits := FieldBits(s, f.offset, f.length);
    assert bits == [Bit(s, index)] && bits[1..] == [];
  }

  /** A field of any number of bits covers exactly those from its index on, and reads as them. */
  lemma AnyFieldIsItsBits(buffer: array<byte>, index: u64, bits: u64, s: Bytes)
    requires index as nat + bits as nat <= 8 * |s|
    ensures var f := Create(AnyField(bits), buffer, index);
            && f.buffer == buffer && f.offset + f.length <= 8 * |s|
            && (forall i :: CoversBit(f, i) <==> index as nat <= i < index as nat + bits as nat)
            && var n := ValueOf(FieldBits(s, f.offset, f.length));
               n < Pow2(bits) && forall j: nat :: j < bits ==> TestBit(n, j) == Bit(s, index as nat + j)
  {
    hide Bit;
    ReadIsLittleEndian(s, index, bits);
  }

  method PutBitAt(a: array<byte>, i: nat, v: bool)
    requires i < 8 * a.Length
    modifies a
    ensures a[..] == PutBit(old(a[..]), i, v)
  {
    Pow2Of8();
    SetBitFits(a[i / 8], i % 8, v, 8);
    a[i / 8] := SetBit(a[i / 8], i % 8, v);
  }

  /** Copies `copied` bits of the source, then clears the rest of the field. */
  method CopyAndFill(a: array<byte>, offset: nat, length: nat, copied: nat, source: Bytes)
    requires offset + length <= 8 * a.Length
    requires copied == if length <= 8 * |source| then length else 8 * |source|
    modifies a
    ensures a[..] == WriteBits(old(a[..]), offset, length, source)
  {
    hide PutBit, Bit;
    ghost var before := a[..];
    for j := 0 to copied
      invariant a[..] == WriteBits(before, offset, j, source)
    {
      PutBitAt(a, offset + j, Bit(source, j));
    }
    for j := copied to length
      invariant a[..] == WriteBits(before, offset, j, source)
    {
      PutBitAt(a, offset + j, false);
    }
  }

  /**
   `write_buffer_field`. Writing outside the buffer panics, and a source that is the target's own buffer
   waits for its own lock, so neither is a call that returns. A boolean sets the first bit only.
   */
  method WriteBufferField(field: BufferField, value: FieldValue) returns (r: Result<()>)
    requires value.IntegerValue? || value.BufferValue? ==> field.offset + field.length <= 8 * field.buffer.Length
    requires value.BufferValue? ==> value.bytes != field.buffer
    requires value.BooleanValue? ==> field.offset < 8 * field.buffer.Length
    modifies field.buffer
    ensures r == if value.OtherValue? then Err(TypeCannotBeWrittenToBufferField(value.typ)) else Ok(())
    ensures field.buffer[..] ==
            match value
            case IntegerValue(n) => Apply(old(field.buffer[..]), FieldStore(field.offset, field.length, LeBytes(n, 8)))
            case BufferValue(b) => Apply(old(field.buffer[..]), FieldStore(field.offset, field.length, old(b[..])))
            case BooleanValue(v) => PutBit(old(field.buffer[..]), field.offset, v)
            case OtherValue(_) => old(field.buffer[..])
  {
    match value {
      case IntegerValue(n) =>
        var copied := if field.length <= 64 then field.length else 64;
        CopyAndFill(field.buffer, field.offset, field.length, copied, LeBytes(n, 8));
        r := Ok(());
      case BooleanValue(v) =>
        PutBitAt(field.buffer, field.offset, v);
        r := Ok(());
      case BufferValue(b) =>
        var copied := if field.length <= 8 * b.Length then field.length else 8 * b.Length;
        CopyAndFill(field.buffer, field.offset, field.length, copied, b[..]);
        r := Ok(());
      case OtherValue(typ) =>
        r := Err(TypeCannotBeWrittenToBufferField(typ));
    }
  }

  // ---- A run of stores on the heap ----

  /** What a value stores through a field, as the value of its bytes; a value that is refused stores nothing. */
  ghost function StoreOf(field: BufferField, value: FieldValue): (st: FieldStore)
    reads if value.BufferValue? then {value.bytes} else {}
    ensures !value.OtherValue? ==> st.offset == field.offset
  {
    match value
    case IntegerValue(n) => FieldStore(field.offset, field.length, LeBytes(n, 8))
    case BufferValue(b) => FieldStore(field.offset, field.length, b[..])
    case BooleanValue(v) => FieldStore(field.offset, 1, [if v then 1 else 0])
    case OtherValue(_) => FieldStore(0, 0, [])
  }

  ghost function SourceBuffers(values: seq<FieldValue>): set<object> {
    set k | 0 <= k < |values| && values[k].BufferValue? :: values[k].bytes
  }

  ghost function StoresOf(fields: seq<BufferField>, values: seq<FieldValue>): (sts: seq<FieldStore>)
    requires |fields| == |values|
    reads SourceBuffers(values)
    ensures |sts| == |fields|
  {
    seq(|fields|, k requires 0 <= k < |fields| reads SourceBuffers(values) => StoreOf(fields[k], values[k]))
  }

  /** A boolean is a store of one bit. */
  lemma BooleanIsOneBit(s: Bytes, i: nat, v: bool)
    requires i < 8 * |s|
    ensures PutBit(s, i, v) == WriteBits(s, i, 1, [if v then 1 else 0])
  {
    hide PutBit;
    assert Bit([if v then 1 else 0], 0) == v;
    assert WriteBits(s, i, 0, [if v then 1 else 0]) == s;
  }

  /**
   Stores through any number of fields over one buffer, one after the other. All of them write to the same
   bytes, so afterwards each bit is what the last store covering it put there.
   */
  method StoreThroughFields(buf: array<byte>, fields: seq<BufferField>, values: seq<FieldValue>)
    requires |fields| == |values| && buf !in SourceBuffers(values)
    requires forall k :: 0 <= k < |fields| ==> fields[k].buffer == buf
    requires AllInBounds(StoresOf(fields, values), buf.Length)
    modifies buf
    ensures StoresOf(fields, values) == old(StoresOf(fields, values))
    ensures buf[..] == ApplyAll(old(buf[..]), StoresOf(fields, values))
    ensures forall i: nat, k :: i < 8 * buf.Length && IsLastCover(StoresOf(fields, values), i, k) ==>
              var st := StoresOf(fields, values)[k]; Bit(buf[..], i) == SourceBit(st.source, i - st.offset)
  {
    hide StoreOf, StoresOf, Apply, ApplyAll, WriteBits, PutBit, Bit, SourceBit, LeBytes;
    hide AllInBounds, IsLastCover, InBounds, Covers;
    ghost var sts, before := StoresOf(fields, values), buf[..];
    RunStarts(before, sts);
    for k := 0 to |fields|
      invariant StoresOf(fields, values) == sts && AllInBounds(sts[..k], |before|)
      invariant buf[..] == ApplyAll(before, sts[..k])
    {
      StoreAt(fields, values, k);
      RunGoesOn(before, sts, k);
      StoreOne(fields[k], values[k]);
    }
    assert sts[..|fields|] == sts;
    LastStoresWin(before, sts);
  }

  lemma StoreAt(fields: seq<BufferField>, values: seq<FieldValue>, k: nat)
    requires k < |fields| == |values|
    ensures StoresOf(fields, values)[k] == StoreOf(fields[k], values[k])
    ensures values[k].BufferValue? ==> values[k].bytes in SourceBuffers(values)
  {
  }

  /** One store, as a step of the run. */
  method StoreOne(field: BufferField, value: FieldValue)
    requires InBounds(StoreOf(field, value), field.buffer.Length)
    requires value.BufferValue? ==> value.bytes != field.buffer
    modifies field.buffer
    ensures field.buffer[..] == Apply(old(field.buffer[..]), old(StoreOf(field, value)))
  {
    hide WriteBits, PutBit, LeBytes;
    if value.BooleanValue? { BooleanIsOneBit(field.buffer[..], field.offset, value.b); }
    if value.OtherValue? { NothingStored(field.buffer[..]); }
    var _ := WriteBufferField(field, value);
  }

  lemma NothingStored(s: Bytes)
    ensures WriteBits(s, 0, 0, []) == s
  {
  }

  lemma RunStarts(s: Bytes, stores: seq<FieldStore>)
    ensures AllInBounds(stores[..0], |s|) && ApplyAll(s, stores[..0]) == s
  {
  }

  lemma RunGoesOn(s: Bytes, stores: seq<FieldStore>, k: nat)
    requires k < |stores| && AllInBounds(stores, |s|)
    ensures AllInBounds(stores[..k], |s|) && AllInBounds(stores[..k + 1], |s|) && InBounds(stores[k], |s|)
    ensures ApplyAll(s, stores[..k + 1]) == Apply(ApplyAll(s, stores[..k]), stores[k])
  {
    hide Apply;
    assert stores[..k + 1][..k] == stores[..k];
  }

  lemma LastStoresWin(s: Bytes, stores: seq<FieldStore>)
    requires AllInBounds(stores, |s|)
    ensures forall i: nat, k :: i < 8 * |s| && IsLastCover(stores, i, k) ==>
              Bit(ApplyAll(s, stores), i) == SourceBit(stores[k].source, i - stores[k].offset)
  {
    hide ApplyAll, Bit, SourceBit;
    forall i: nat, k | i < 8 * |s| && IsLastCover(stores, i, k)
      ensures Bit(ApplyAll(s, stores), i) == SourceBit(stores[k].source, i - stores[k].offset)
    {
      LastStoreWins(s, stores, i, k);
    }
  }

  // ---- Reading through a field ----

  datatype FieldRead = IntegerRead(n: nat) | BufferRead(bytes: Bytes)

  lemma {:induction false} ZeroHasNoBits(k: nat)
    ensures !TestBit(0, k)
  {
    if k > 0 { ZeroHasNoBits(k - 1); }
  }

  /**
   `read_buffer_field`: up to 64 bits as an integer, more as a buffer. What a longer field gives that does not
   start at a byte is decided by another library.
   */
  method ReadBufferField(field: BufferField) returns (r: Result<FieldRead>)
    requires field.offset + field.length > 8 * field.buffer.Length || field.length <= 64 || field.offset % 8 == 0
    ensures r.Ok? <==> field.offset + field.length <= 8 * field.buffer.Length
    ensures r.Err? ==> r.error == BufferFieldIndexesOutOfBounds
    ensures r.Ok? && field.length <= 64 ==>
              && r.value == IntegerRead(ValueOf(FieldBits(field.buffer[..], field.offset, field.length)))
              && r.value.n < Pow2(field.length)
    ensures r.Ok? && field.length > 64 ==>
              && r.value.BufferRead? && |r.value.bytes| == (field.length + 7) / 8
              && forall j :: 0 <= j < 8 * |r.value.bytes| ==>
                   Bit(r.value.bytes, j) == (j < field.length && Bit(field.buffer[..], field.offset + j))
  {
    if field.offset + field.length > 8 * field.buffer.Length { return Err(BufferFieldIndexesOutOfBounds); }
    if field.length > 64 {
      var bytes := ReadWide(field);
      return Ok(BufferRead(bytes));
    }
    ghost var bits := FieldBits(field.buffer[..], field.offset, field.length);
    var value := 0;
    for j := field.length downto 0
      invariant value == ValueOf(bits[j..])
    {
      assert bits[j..][1..] == bits[j + 1..] && bits[j..][0] == bits[j];
      assert bits[j] == Bit(field.buffer[..], field.offset + j);
      value := 2 * value + (if TestBit(field.buffer[(field.offset + j) / 8], (field.offset + j) % 8) then 1 else 0);
    }
    assert bits[0..] == bits;
    ReadIsLittleEndian(field.buffer[..], field.offset, field.length);
    r := Ok(IntegerRead(value));
  }

  /** The bytes of a field that starts at a byte, with the bits past its end cleared. */
  method ReadWide(field: BufferField) returns (bytes: Bytes)
    requires field.offset + field.length <= 8 * field.buffer.Length && field.offset % 8 == 0
    ensures |bytes| == (field.length + 7) / 8
    ensures forall j :: 0 <= j < 8 * |bytes| ==>
              Bit(bytes, j) == (j < field.length && Bit(field.buffer[..], field.offset + j))
  {
    var start, size := field.offset / 8, (field.length + 7) / 8;
    var source: Bytes := field.buffer[start..];
    var copy := new byte[size](_ => 0);
    ghost var zeros: Bytes := copy[..];
    CopyAndFill(copy, 0, field.length, field.length, source);
    bytes := copy[..];
    forall j | 0 <= j < 8 * size
      ensures Bit(bytes, j) == (j < field.length && Bit(field.buffer[..], field.offset + j))
    {
      BitAfterWrite(zeros, 0, field.length, source, j);
      if j >= field.length { ZeroHasNoBits(j % 8); }
      else { BitOfRest(field.buffer[..], start, j); }
    }
  }

  lemma BitOfRest(s: Bytes, start: nat, j: nat)
    requires start <= |s| && j < 8 * |s[start..]|
    ensures Bit(s[start..], j) == Bit(s, 8 * start + j)
  {
    assert (8 * start + j) / 8 == start + j / 8 && (8 * start + j) % 8 == j % 8;
  }

  /** `as_integer` on a buffer: its first eight bytes, folded from the last one back. */
  method BufferAsInteger(b: array<byte>) returns (n: nat)
    ensures n == LeValue(b[..if b.Length > 8 then 8 else b.Length])
    ensures n < U64_COUNT
  {
    var count := if b.Length > 8 then 8 else b.Length;
    ghost var bytes := b[..count];
    n := 0;
    for j := count downto 0
      invariant n == LeValue(bytes[j..])
    {
      assert bytes[j..][1..] == bytes[j + 1..];
      var popped: nat := b[j];
      n := n * 256 + popped;
    }
    assert bytes[0..] == bytes;
    LeValueFits(bytes);
    Pow2Monotonic(8 * count, 64);
    Pow2Of64();
  }

  lemma Pow2Of64()
    ensures Pow2(64) == U64_COUNT
  {
    Pow2Of8();
    Pow2Step(1);
    Pow2Step(2);
    Pow2Step(3);
    Pow2Step(4);
    Pow2Step(5);
    Pow2Step(6);
    Pow2Step(7);
  }

  lemma {:induction false} Pow2Monotonic(a: nat, b: nat)
    requires a <= b
    ensures Pow2(a) <= Pow2(b)
    decreases b - a
  {
    if a < b { Pow2Monotonic(a, b - 1); }
  }
}
