/** Values shared by every part of the model: machine integers, names, errors and results. */
module Types {

  type byte = x: int | 0 <= x < 0x100
  type u16 = x: int | 0 <= x < 0x1_0000
  type u32 = x: int | 0 <= x < 0x1_0000_0000
  type u64 = x: int | 0 <= x < 0x1_0000_0000_0000_0000

  type Bytes = seq<byte>

  datatype Option<+T> = None | Some(value: T)

  // ---- Names ----

  predicate IsLeadNameChar(b: byte) { 'A' as int <= b <= 'Z' as int || b == '_' as int }

  predicate IsDigitChar(b: byte) { '0' as int <= b <= '9' as int }

  predicate IsNameChar(b: byte) { IsLeadNameChar(b) || IsDigitChar(b) }

  predicate IsNameSeg(s: seq<byte>) {
    |s| == 4 && IsLeadNameChar(s[0]) && IsNameChar(s[1]) && IsNameChar(s[2]) && IsNameChar(s[3])
  }

  /** Four bytes; both ways of making one (from text and from a byte stream) check the characters. */
  type NameSeg = s: seq<byte> | IsNameSeg(s) witness [95, 95, 95, 95]

  datatype NameComponent = Root | Prefix | Segment(seg: NameSeg)

  type AmlName = seq<NameComponent>

  const ROOT_NAME: AmlName := [Root]

  predicate IsNormal(name: AmlName) { Prefix !in name }

  predicate IsAbsolute(name: AmlName) { |name| > 0 && name[0] == Root }

  predicate AllSegments(name: AmlName) { forall i :: 0 <= i < |name| ==> name[i].Segment? }

  /** An absolute, normal path: the root followed by segments only. */
  predicate IsPath(name: AmlName) { IsAbsolute(name) && AllSegments(name[1..]) }

  /** As many prefixes. */
  function Prefixes(n: nat): AmlName { seq(n, _ => Prefix) }

  function LeadingPrefixes(name: AmlName): (k: nat)
    ensures k <= |name| && (forall i :: 0 <= i < k ==> name[i] == Prefix) && (k < |name| ==> name[k] != Prefix)
  {
    if name == [] || name[0] != Prefix then 0 else 1 + LeadingPrefixes(name[1..])
  }

  /** What the byte-code grammar can spell: the root, or any number of prefixes, then segments. */
  predicate IsGrammarName(name: AmlName) {
    name != [] && (IsPath(name) || AllSegments(name[LeadingPrefixes(name)..]))
  }

  type GrammarName = n: AmlName | IsGrammarName(n) witness [Root]

  type PathName = n: AmlName | IsPath(n) witness [Root]

  // ---- Errors and results ----

  datatype AmlType = BufferType | BufferFieldType | DeviceType | IntegerType | MethodType | StringType

  datatype AmlError =
    | UnexpectedEndOfStream
    | UnexpectedByte(b: byte)
    | InvalidNameSeg
    | InvalidPkgLength
    | WrongParser
    | EmptyNamesAreInvalid
    | InvalidNormalizedName(name: AmlName)
    | RootHasNoParent
    | LevelDoesNotExist(name: AmlName)
    | ValueDoesNotExist(name: AmlName)
    | NameCollision(name: AmlName)
    | TriedToRemoveRootNamespace
    | NotExecutingControlMethod
    | InvalidArgAccess(arg: nat)
    | InvalidLocalAccess(local: nat)
    | TooManyArgs
    | BreakInInvalidPosition
    | ContinueInInvalidPosition
    | ReservedResourceType
    | ResourceDescriptorTooShort
    | ResourceDescriptorTooLong
    | IncompatibleValueConversion(current: AmlType, target: AmlType)
    | TypeCannotBeCompared(typ: AmlType)
    | TypeCannotBeWrittenToBufferField(typ: AmlType)
    | BufferFieldIndexesOutOfBounds

  datatype Result<+T> = Ok(value: T) | Err(error: AmlError)
}
