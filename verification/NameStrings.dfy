/** Names in byte code (aml/src/name_object.rs:71-248; section 20.2.2 of the ACPI specification). */
module NameStrings {
  import opened Types
  import opened Levels
  import opened Interpreter
  import opened Parsers

  const NULL_NAME: byte := 0x00
  const DUAL_NAME_PREFIX: byte := 0x2e
  const MULTI_NAME_PREFIX: byte := 0x2f
  const ROOT_CHAR: byte := '\\' as int
  const PREFIX_CHAR: byte := '^' as int

  // ---- The parsers ----

  function NameSegParser<C>(): Parser<C, NameSeg> { (i, c) => ParseNameSeg(i, c) }

  /** Four checked bytes; a failure stands where the offending byte is. */
  function ParseNameSeg<C>(i: Bytes, c: C): ParseResult<C, NameSeg> {
    var k := ValidChars(i, 0);
    if k == 4 then
      var seg: NameSeg := i[..4];
      Parsed(i[4..], c, seg)
    else if k == |i| then Halted(i[k..], c, PErr(UnexpectedEndOfStream))
    else Halted(i[k..], c, PErr(UnexpectedByte(i[k])))
  }

  /** How many of the first four bytes are acceptable, from index `k` on. */
  function ValidChars(i: Bytes, k: nat): (n: nat)
    requires k <= 4 && k <= |i|
    requires forall j :: 0 <= j < k ==> if j == 0 then IsLeadNameChar(i[j]) else IsNameChar(i[j])
    ensures k <= n <= 4 && n <= |i|
    ensures n == 4 ==> IsNameSeg(i[..4])
    ensures n < 4 && n < |i| ==> !(if n == 0 then IsLeadNameChar(i[n]) else IsNameChar(i[n]))
    decreases 4 - k
  {
    if k == 4 || k == |i| then k
    else if (if k == 0 then IsLeadNameChar(i[k]) else IsNameChar(i[k])) then ValidChars(i, k + 1)
    else k
  }

  function Components(segs: seq<NameSeg>): AmlName { seq(|segs|, k requires 0 <= k < |segs| => Segment(segs[k])) }

  // What each grammar rule makes of the pieces it read.

  function NoComponents(u: ()): Mapped<AmlName> { Keep([]) }

  function TwoComponents(r: (((), NameSeg), NameSeg)): Mapped<AmlName> { Keep([Segment(r.0.1), Segment(r.1)]) }

  function OneComponent(seg: NameSeg): Mapped<AmlName> { Keep([Segment(seg)]) }

  function Rooted(r: ((), AmlName)): Mapped<AmlName> { Keep([Root] + r.1) }

  function Prefixed(r: (nat, AmlName)): Mapped<AmlName> { Keep(Prefixes(r.0) + r.1) }

  function NonEmpty(n: AmlName): Mapped<AmlName> { if n == [] then Throw(PErr(EmptyNamesAreInvalid)) else Keep(n) }

  lemma RulesMake()
    ensures NoComponents(()) == Keep([])
    ensures forall r: (((), NameSeg), NameSeg) :: TwoComponents(r) == Keep([Segment(r.0.1), Segment(r.1)])
    ensures forall seg: NameSeg :: OneComponent(seg) == Keep([Segment(seg)])
    ensures forall r: ((), AmlName) :: Rooted(r) == Keep([Root] + r.1)
    ensures forall r: (nat, AmlName) :: Prefixed(r) == Keep(Prefixes(r.0) + r.1)
    ensures forall n: AmlName :: NonEmpty(n) == if n == [] then Throw(PErr(EmptyNamesAreInvalid)) else Keep(n)
  {
  }

  function NullName<C>(): Parser<C, AmlName> { Map(Opcode<C>(NULL_NAME), NoComponents) }

  function DualNamePath<C>(): Parser<C, AmlName> {
    Map(Then(Then(Opcode<C>(DUAL_NAME_PREFIX), NameSegParser<C>()), NameSegParser<C>()), TwoComponents)
  }

  function ParseMultiNamePath<C>(i: Bytes, c: C): ParseResult<C, AmlName> {
    match Then(Opcode<C>(MULTI_NAME_PREFIX), Take<C>())(i, c)
    case Halted(rest, c1, why) => Halted(rest, c1, why)
    case Stuck => Stuck
    case Parsed(rest, c1, r) =>
      match NOf(NameSegParser<C>(), r.1)(rest, c1)
      case Parsed(last, c2, segs) => Parsed(last, c2, Components(segs))
      case Halted(_, c2, why) => Halted(i, c2, why)
      case Stuck => Stuck
  }

  function MultiNamePath<C>(): Parser<C, AmlName> { (i, c) => ParseMultiNamePath(i, c) }

  function SingleName<C>(): Parser<C, AmlName> { Map(NameSegParser<C>(), OneComponent) }

  function NamePath<C>(): Parser<C, AmlName> {
    Choice([NullName<C>(), DualNamePath<C>(), MultiNamePath<C>(), SingleName<C>()])
  }

  function RootNameString<C>(): Parser<C, AmlName> {
    Map(Then(Opcode<C>(ROOT_CHAR), NamePath<C>()), Rooted)
  }

  function PrefixPath<C>(): Parser<C, AmlName> {
    Map(Then(TakeWhile(Opcode<C>(PREFIX_CHAR)), NamePath<C>()), Prefixed)
  }

  function PlainPath<C>(): Parser<C, AmlName> {
    Map(NamePath<C>(), NonEmpty)
  }

  function ParseNameString<C>(i: Bytes, c: C): ParseResult<C, AmlName> {
    if i == [] then Halted(i, c, PErr(UnexpectedEndOfStream))
    else if i[0] == ROOT_CHAR then RootNameString<C>()(i, c)
    else if i[0] == PREFIX_CHAR then PrefixPath<C>()(i, c)
    else PlainPath<C>()(i, c)
  }

  function NameString<C>(): Parser<C, AmlName> { (i, c) => ParseNameString(i, c) }

  // ---- The canonical encoding ----

  function Flatten(segs: seq<NameSeg>): Bytes
    decreases |segs|
  {
    if segs == [] then [] else segs[0] + Flatten(segs[1..])
  }

  function EncodePath(segs: seq<NameSeg>): (b: Bytes)
    requires |segs| <= 255
    ensures |b| > 0
  {
    if segs == [] then [NULL_NAME]
    else if |segs| == 1 then segs[0]
    else if |segs| == 2 then [DUAL_NAME_PREFIX] + segs[0] + segs[1]
    else [MULTI_NAME_PREFIX, |segs|] + Flatten(segs)
  }

  function Carets(n: nat): Bytes { seq(n, _ => PREFIX_CHAR) }

  /** How a name of the grammar falls into its lead and its segments. */
  datatype Parts = Parts(rooted: bool, prefixes: nat, segs: seq<NameSeg>)

  predicate IsEncodable(p: Parts) {
    |p.segs| <= 255 && (p.rooted ==> p.prefixes == 0) && (p.rooted || p.prefixes > 0 || p.segs != [])
  }

  function NameOf(p: Parts): AmlName { (if p.rooted then [Root] else Prefixes(p.prefixes)) + Components(p.segs) }

  function Lead(p: Parts): Bytes { if p.rooted then [ROOT_CHAR] else Carets(p.prefixes) }

  function EncodeName(p: Parts): Bytes
    requires IsEncodable(p)
  {
    Lead(p) + EncodePath(p.segs)
  }

  // ---- Round trip ----

  lemma SegRoundTrip<C>(seg: NameSeg, trailer: Bytes, c: C)
    ensures ParseNameSeg(seg + trailer, c) == Parsed(trailer, c, seg)
  {
    var i := seg + trailer;
    assert i[..4] == seg && i[4..] == trailer;
    assert ValidChars(i, 0) == 4;
  }

  lemma {:induction false} SegsRoundTrip<C>(segs: seq<NameSeg>, trailer: Bytes, c: C)
    ensures NOf(NameSegParser<C>(), |segs|)(Flatten(segs) + trailer, c) == Parsed(trailer, c, segs)
    decreases |segs|
  {
    hide ParseNameSeg;
    if segs == [] {
      assert Flatten(segs) + trailer == trailer;
    } else {
      assert Flatten(segs) + trailer == segs[0] + (Flatten(segs[1..]) + trailer);
      SegRoundTrip(segs[0], Flatten(segs[1..]) + trailer, c);
      SegsRoundTrip(segs[1..], trailer, c);
      assert [segs[0]] + segs[1..] == segs;
    }
  }

  lemma ChoiceSkips<C, R>(p: Parser<C, R>, ps: seq<Parser<C, R>>, i: Bytes, c: C)
    ensures p(i, c).Halted? && p(i, c).why == WRONG_PARSER && p(i, c).ctx == c ==>
              Choice([p] + ps)(i, c) == Choice(ps)(i, c)
    ensures p(i, c).Parsed? ==> Choice([p] + ps)(i, c) == p(i, c)
  {
    assert ([p] + ps)[1..] == ps;
  }

  /** All four alternatives in turn. */
  lemma NamePathIs<C>(i: Bytes, c: C)
    requires i != []
    ensures i[0] == NULL_NAME ==> NamePath<C>()(i, c) == Parsed(i[1..], c, [])
    ensures i[0] == DUAL_NAME_PREFIX && DualNamePath<C>()(i, c).Parsed? ==>
              NamePath<C>()(i, c) == DualNamePath<C>()(i, c)
    ensures i[0] == MULTI_NAME_PREFIX && MultiNamePath<C>()(i, c).Parsed? ==>
              NamePath<C>()(i, c) == MultiNamePath<C>()(i, c)
    ensures i[0] != NULL_NAME && i[0] != DUAL_NAME_PREFIX && i[0] != MULTI_NAME_PREFIX
            && SingleName<C>()(i, c).Parsed? ==>
              NamePath<C>()(i, c) == SingleName<C>()(i, c)
  {
    var p1, p2, p3, p4 := NullName<C>(), DualNamePath<C>(), MultiNamePath<C>(), SingleName<C>();
    Wrong<C>(i, c);
    hide NullName, DualNamePath, MultiNamePath, SingleName, Choice;
    assert [p1, p2, p3, p4] == [p1] + [p2, p3, p4] && [p2, p3, p4] == [p2] + [p3, p4] && [p3, p4] == [p3] + [p4];
    assert [p4] == [p4] + [];
    ChoiceSkips(p1, [p2, p3, p4], i, c);
    ChoiceSkips(p2, [p3, p4], i, c);
    ChoiceSkips(p3, [p4], i, c);
    ChoiceSkips(p4, [], i, c);
  }

  /** Each alternative knows its own first byte and no other. */
  lemma Wrong<C>(i: Bytes, c: C)
    requires i != []
    ensures i[0] == NULL_NAME ==> NullName<C>()(i, c) == Parsed(i[1..], c, [])
    ensures i[0] != NULL_NAME ==> NullName<C>()(i, c) == Halted(i, c, WRONG_PARSER)
    ensures i[0] != DUAL_NAME_PREFIX ==> DualNamePath<C>()(i, c) == Halted(i, c, WRONG_PARSER)
    ensures i[0] != MULTI_NAME_PREFIX ==> MultiNamePath<C>()(i, c) == Halted(i, c, WRONG_PARSER)
  {
    RulesMake();
    hide NOf, ParseNameSeg;
    assert i[0] != MULTI_NAME_PREFIX ==>
        Then(Opcode<C>(MULTI_NAME_PREFIX), Take<C>())(i, c) == Halted(i, c, WRONG_PARSER);
  }

  lemma DualRoundTrip<C>(a: NameSeg, b: NameSeg, trailer: Bytes, c: C)
    ensures DualNamePath<C>()([DUAL_NAME_PREFIX] + a + b + trailer, c) == Parsed(trailer, c, [Segment(a), Segment(b)])
  {
    RulesMake();
    hide ParseNameSeg;
    var i := [DUAL_NAME_PREFIX] + a + b + trailer;
    assert i[1..] == a + (b + trailer);
    SegRoundTrip(a, b + trailer, c);
    SegRoundTrip(b, trailer, c);
  }

  lemma MultiHeader<C>(count: byte, rest: Bytes, c: C)
    ensures Then(Opcode<C>(MULTI_NAME_PREFIX), Take<C>())([MULTI_NAME_PREFIX, count] + rest, c)
              == Parsed(rest, c, ((), count))
  {
    var i := [MULTI_NAME_PREFIX, count] + rest;
    assert i[0] == MULTI_NAME_PREFIX && i[1..] == [count] + rest;
    assert ([count] + rest)[1..] == rest;
  }

  lemma MultiRoundTrip<C>(segs: seq<NameSeg>, trailer: Bytes, c: C)
    requires |segs| <= 255
    ensures ParseMultiNamePath([MULTI_NAME_PREFIX, |segs|] + Flatten(segs) + trailer, c)
              == Parsed(trailer, c, Components(segs))
  {
    hide NOf, Flatten, Then, NameSegParser, Opcode, Take, Components;
    var rest := Flatten(segs) + trailer;
    assert [MULTI_NAME_PREFIX, |segs|] + Flatten(segs) + trailer == [MULTI_NAME_PREFIX, |segs|] + rest;
    MultiHeader(|segs|, rest, c);
    SegsRoundTrip(segs, trailer, c);
  }

  lemma PathRoundTrip<C>(segs: seq<NameSeg>, trailer: Bytes, c: C)
    requires |segs| <= 255
    ensures NamePath<C>()(EncodePath(segs) + trailer, c) == Parsed(trailer, c, Components(segs))
  {
    RulesMake();
    hide NamePath, DualNamePath, ParseMultiNamePath, ParseNameSeg;
    var i := EncodePath(segs) + trailer;
    NamePathIs(i, c);
    if segs == [] {
      assert i[1..] == trailer && Components(segs) == [];
    } else if |segs| == 1 {
      SegRoundTrip(segs[0], trailer, c);
      assert Components(segs) == [Segment(segs[0])];
      assert i == segs[0] + trailer && i[0] == segs[0][0];
    } else if |segs| == 2 {
      DualRoundTrip(segs[0], segs[1], trailer, c);
      assert Components(segs) == [Segment(segs[0]), Segment(segs[1])];
    } else {
      MultiRoundTrip(segs, trailer, c);
    }
  }

  lemma PathStart(segs: seq<NameSeg>)
    requires |segs| <= 255
    ensures EncodePath(segs)[0] != ROOT_CHAR && EncodePath(segs)[0] != PREFIX_CHAR
  {
  }

  lemma {:induction false} CaretsAreCounted<C>(n: nat, rest: Bytes, c: C)
    requires rest != [] && rest[0] != PREFIX_CHAR
    ensures CountWhile(Opcode<C>(PREFIX_CHAR), Carets(n) + rest, c) == Parsed(rest, c, n)
  {
    if n == 0 {
      assert Carets(0) + rest == rest;
    } else {
      CaretsAreCounted(n - 1, rest, c);
      assert (Carets(n) + rest)[1..] == Carets(n - 1) + rest;
    }
  }

  /** Reading the canonical encoding of any encodable name, whatever follows, gives the name and what follows. */
  lemma NameStringRoundTrip<C>(p: Parts, trailer: Bytes, c: C)
    requires IsEncodable(p)
    ensures ParseNameString(EncodeName(p) + trailer, c) == Parsed(trailer, c, NameOf(p))
  {
    assert EncodeName(p)[|Lead(p)|..] == EncodePath(p.segs);
    SpelledIsParsed(EncodeName(p), p, trailer, c);
  }

  lemma ComponentsLength(segs: seq<NameSeg>)
    ensures |Components(segs)| == |segs|
  {
  }

  // ---- Exactly the spellings of names are read ----

  /** The byte strings that spell a path; all but the empty one can also be spelt with a count. */
  predicate SpellsPath(b: Bytes, segs: seq<NameSeg>) {
    || (segs == [] && b == [NULL_NAME])
    || (|segs| == 1 && b == segs[0])
    || (|segs| == 2 && b == [DUAL_NAME_PREFIX] + segs[0] + segs[1])
    || (|segs| <= 255 && b == [MULTI_NAME_PREFIX, |segs|] + Flatten(segs))
  }

  predicate Spells(b: Bytes, p: Parts) {
    IsEncodable(p) && Lead(p) <= b && SpellsPath(b[|Lead(p)|..], p.segs)
  }

  lemma SpelledPathParses<C>(b: Bytes, segs: seq<NameSeg>, trailer: Bytes, c: C)
    requires SpellsPath(b, segs)
    ensures b != [] && b[0] != ROOT_CHAR && b[0] != PREFIX_CHAR
    ensures NamePath<C>()(b + trailer, c) == Parsed(trailer, c, Components(segs))
  {
    hide NamePath, ParseMultiNamePath, Flatten, Components;
    if |segs| <= 255 && b == [MULTI_NAME_PREFIX, |segs|] + Flatten(segs) {
      NamePathIs(b + trailer, c);
      MultiRoundTrip(segs, trailer, c);
    } else {
      PathRoundTrip(segs, trailer, c);
      assert b == EncodePath(segs);
    }
  }

  /** Every spelling of a name, whatever follows, is read as that name. */
  lemma SpelledIsParsed<C>(b: Bytes, p: Parts, trailer: Bytes, c: C)
    requires Spells(b, p)
    ensures ParseNameString(b + trailer, c) == Parsed(trailer, c, NameOf(p))
  {
    RulesMake();
    hide NamePath, SpellsPath, Components;
    var i, path := b + trailer, b[|Lead(p)|..] + trailer;
    SpelledPathParses(b[|Lead(p)|..], p.segs, trailer, c);
    assert i == Lead(p) + path;
    if p.rooted {
      assert i[1..] == path;
    } else if p.prefixes > 0 {
      assert i[0] == PREFIX_CHAR;
      CaretsAreCounted(p.prefixes, path, c);
      assert TakeWhile(Opcode<C>(PREFIX_CHAR))(i, c) == Parsed(path, c, p.prefixes);
    } else {
      assert i == path;
      assert Prefixes(0) + Components(p.segs) == Components(p.segs);
      ComponentsLength(p.segs);
    }
  }

  lemma {:induction false} SegsComeFrom<C>(n: nat, i: Bytes, c: C)
    ensures var r := NOf(NameSegParser<C>(), n)(i, c);
            r.Parsed? ==> |r.value| == n && i == Flatten(r.value) + r.rest && r.ctx == c
    decreases n
  {
    var r := NOf(NameSegParser<C>(), n)(i, c);
    if r.Parsed? {
      if n > 0 {
        var s := ParseNameSeg(i, c);
        SegsComeFrom(n - 1, s.rest, c);
        var t := NOf(NameSegParser<C>(), n - 1)(s.rest, c);
        assert r.value == [s.value] + t.value && r.value[1..] == t.value;
        assert i == s.value + s.rest;
      }
    }
  }

  /** The four alternatives, when none before it knows the first byte. */
  lemma NamePathTries<C>(i: Bytes, c: C)
    requires i != [] && NamePath<C>()(i, c).Parsed?
    ensures NamePath<C>()(i, c) ==
            if i[0] == NULL_NAME then NullName<C>()(i, c)
            else if i[0] == DUAL_NAME_PREFIX then DualNamePath<C>()(i, c)
            else if i[0] == MULTI_NAME_PREFIX then MultiNamePath<C>()(i, c)
            else SingleName<C>()(i, c)
  {
    var p1, p2, p3, p4 := NullName<C>(), DualNamePath<C>(), MultiNamePath<C>(), SingleName<C>();
    Wrong<C>(i, c);
    Own<C>(i, c);
    hide NullName, DualNamePath, MultiNamePath, SingleName;
    var none: seq<Parser<C, AmlName>> := [];
    assert [p1, p2, p3, p4][1..] == [p2, p3, p4] && [p2, p3, p4][1..] == [p3, p4] && [p3, p4][1..] == [p4]
        && [p4][1..] == none;
  }

  /** An alternative that knows the first byte never answers that it is the wrong parser. */
  lemma Own<C>(i: Bytes, c: C)
    requires i != []
    ensures i[0] == DUAL_NAME_PREFIX ==> DualNamePath<C>()(i, c) != Halted(i, c, WRONG_PARSER)
    ensures i[0] == MULTI_NAME_PREFIX ==> MultiNamePath<C>()(i, c) != Halted(i, c, WRONG_PARSER)
  {
    RulesMake();
    if i[0] == MULTI_NAME_PREFIX && |i| > 1 {
      MultiHeader(i[1], i[2..], c);
      assert i == [MULTI_NAME_PREFIX, i[1]] + i[2..];
      SegsAreSegments(i[1], i[2..], c);
      hide NOf;
    }
  }

  lemma {:induction false} SegsAreSegments<C>(n: nat, i: Bytes, c: C)
    ensures var r := NOf(NameSegParser<C>(), n)(i, c); r.Parsed? || (r.Halted? && r.why != WRONG_PARSER)
    decreases n
  {
    if n > 0 && ParseNameSeg(i, c).Parsed? { SegsAreSegments(n - 1, ParseNameSeg(i, c).rest, c); }
  }

  lemma DualComesFrom<C>(i: Bytes, c: C) returns (segs: seq<NameSeg>)
    requires DualNamePath<C>()(i, c).Parsed?
    ensures |segs| == 2
    ensures var r := DualNamePath<C>()(i, c);
            i == [DUAL_NAME_PREFIX] + segs[0] + segs[1] + r.rest && r.ctx == c && r.value == Components(segs)
  {
    RulesMake();
    hide ParseNameSeg;
    SegComesFrom(i[1..], c);
    var s := ParseNameSeg(i[1..], c);
    SegComesFrom(s.rest, c);
    segs := [s.value, ParseNameSeg(s.rest, c).value];
    assert i == [i[0]] + i[1..];
  }

  lemma MultiComesFrom<C>(i: Bytes, c: C) returns (segs: seq<NameSeg>)
    requires MultiNamePath<C>()(i, c).Parsed?
    ensures |segs| <= 255
    ensures var r := MultiNamePath<C>()(i, c);
            i == [MULTI_NAME_PREFIX, |segs|] + Flatten(segs) + r.rest && r.ctx == c && r.value == Components(segs)
  {
    var count, rest := i[1], i[2..];
    assert i[0] == MULTI_NAME_PREFIX && i == [MULTI_NAME_PREFIX, count] + rest;
    MultiHeader(count, rest, c);
    SegsComeFrom(count, rest, c);
    hide NOf, Flatten;
    segs := NOf(NameSegParser<C>(), count)(rest, c).value;
  }

  /** A path that was read is one of its spellings, and nothing beyond it is gone. */
  lemma ParsedPathIsSpelled<C>(i: Bytes, c: C) returns (b: Bytes, segs: seq<NameSeg>)
    requires NamePath<C>()(i, c).Parsed?
    ensures SpellsPath(b, segs) && i == b + NamePath<C>()(i, c).rest
    ensures NamePath<C>()(i, c).value == Components(segs) && NamePath<C>()(i, c).ctx == c
  {
    NonePath(c);
    Wrong(i, c);
    NamePathTries(i, c);
    hide NamePath, DualNamePath, ParseMultiNamePath, ParseNameSeg, Flatten, NullName;
    if i[0] == NULL_NAME {
      b, segs := [NULL_NAME], [];
      assert i == b + i[1..];
    } else if i[0] == DUAL_NAME_PREFIX {
      segs := DualComesFrom(i, c);
      b := [DUAL_NAME_PREFIX] + segs[0] + segs[1];
    } else if i[0] == MULTI_NAME_PREFIX {
      segs := MultiComesFrom(i, c);
      b := [MULTI_NAME_PREFIX, |segs|] + Flatten(segs);
    } else {
      RulesMake();
      SegComesFrom(i, c);
      b, segs := ParseNameSeg(i, c).value, [ParseNameSeg(i, c).value];
    }
  }

  lemma SegComesFrom<C>(i: Bytes, c: C)
    ensures var r := ParseNameSeg(i, c);
            (r.Parsed? ==> i == r.value + r.rest && r.ctx == c) && (r.Halted? ==> r.why != WRONG_PARSER)
  {
  }

  lemma NonePath<C>(c: C)
    ensures !NamePath<C>()([], c).Parsed?
  {
    hide NOf;
    var i: Bytes := [];
    assert NullName<C>()(i, c).Halted? && NullName<C>()(i, c).why != WRONG_PARSER;
  }

  lemma {:induction false} CaretsComeFrom<C>(i: Bytes, c: C)
    ensures var r := CountWhile(Opcode<C>(PREFIX_CHAR), i, c);
            r.Parsed? ==> i == Carets(r.value) + r.rest && r.ctx == c
    decreases |i|
  {
    if i != [] && i[0] == PREFIX_CHAR {
      CaretsComeFrom(i[1..], c);
      var r := CountWhile(Opcode<C>(PREFIX_CHAR), i[1..], c);
      if r.Parsed? { assert Carets(r.value + 1) == [PREFIX_CHAR] + Carets(r.value) && i == [i[0]] + i[1..]; }
    }
  }

  /** And nothing else is read as a name: whatever is read starts with a spelling of it, which is all that is gone. */
  lemma ParsedIsSpelled<C>(i: Bytes, c: C) returns (b: Bytes, p: Parts)
    requires ParseNameString(i, c).Parsed?
    ensures Spells(b, p) && b <= i && ParseNameString(i, c) == Parsed(i[|b|..], c, NameOf(p))
  {
    RulesMake();
    hide NamePath, SpellsPath, Components;
    var path, segs;
    if i[0] == ROOT_CHAR {
      path, segs := ParsedPathIsSpelled(i[1..], c);
      p := Parts(true, 0, segs);
    } else if i[0] == PREFIX_CHAR {
      var counted := TakeWhile(Opcode<C>(PREFIX_CHAR))(i, c);
      CaretsComeFrom(i, c);
      CaretCounted(i, c);
      path, segs := ParsedPathIsSpelled(counted.rest, c);
      p := Parts(false, counted.value, segs);
    } else {
      path, segs := ParsedPathIsSpelled(i, c);
      p := Parts(false, 0, segs);
      ComponentsLength(segs);
      assert Carets(0) + path == path && Prefixes(0) + Components(segs) == Components(segs);
    }
    b := Lead(p) + path;
    SpelledPathIsShort(path, segs);
    assert b[|Lead(p)|..] == path;
    assert i == b + ParseNameString(i, c).rest;
  }

  /** What a stream that does not start with a name fails with: nothing to read, the null name alone, a stray byte. */
  lemma NameRefused<C>(i: Bytes, c: C)
    ensures i == [] ==> ParseNameString(i, c) == Halted(i, c, PErr(UnexpectedEndOfStream))
    ensures i != [] && i[0] == NULL_NAME ==> ParseNameString(i, c) == Halted(i, c, PErr(EmptyNamesAreInvalid))
    ensures i != [] && i[0] !in [NULL_NAME, DUAL_NAME_PREFIX, MULTI_NAME_PREFIX, ROOT_CHAR, PREFIX_CHAR]
            && !IsLeadNameChar(i[0]) ==>
              ParseNameString(i, c) == Halted(i, c, PErr(UnexpectedByte(i[0])))
  {
    RulesMake();
    if i != [] && i[0] != ROOT_CHAR && i[0] != PREFIX_CHAR {
      NamePathIs(i, c);
      Wrong(i, c);
      hide NullName, DualNamePath, MultiNamePath;
      var none: seq<Parser<C, AmlName>> := [];
      var p1, p2, p3, p4 := NullName<C>(), DualNamePath<C>(), MultiNamePath<C>(), SingleName<C>();
      assert [p1, p2, p3, p4][1..] == [p2, p3, p4] && [p2, p3, p4][1..] == [p3, p4] && [p3, p4][1..] == [p4]
          && [p4][1..] == none;
    }
  }

  lemma SpelledPathIsShort(b: Bytes, segs: seq<NameSeg>)
    requires SpellsPath(b, segs)
    ensures |segs| <= 255
  {
  }

  // ---- Only names of the grammar come out ----

  lemma {:induction false} ChoiceGives<C(!new), R(!new)>(ps: seq<Parser<C, R>>, ok: R -> bool, i: Bytes, c: C)
    requires forall k, c1 :: 0 <= k < |ps| && ps[k](i, c1).Parsed? ==> ok(ps[k](i, c1).value)
    ensures Choice(ps)(i, c).Parsed? ==> ok(Choice(ps)(i, c).value)
    decreases |ps|
  {
    if ps != [] && ps[0](i, c).Halted? { ChoiceGives(ps[1..], ok, i, ps[0](i, c).ctx); }
  }

  lemma AllAreSegments<C(!new)>(i: Bytes, c: C)
    ensures NamePath<C>()(i, c).Parsed? ==> AllSegments(NamePath<C>()(i, c).value)
  {
    RulesMake();
    var ps := [NullName<C>(), DualNamePath<C>(), MultiNamePath<C>(), SingleName<C>()];
    forall k, c1 | 0 <= k < |ps| && ps[k](i, c1).Parsed? ensures AllSegments(ps[k](i, c1).value) {
      hide Then, NOf, ParseNameSeg;
    }
    ChoiceGives(ps, n => AllSegments(n), i, c);
  }

  /** Whatever bytes are read, only names of the grammar come out. */
  lemma NameStringIsGrammar<C(!new)>(i: Bytes, c: C)
    ensures ParseNameString(i, c).Parsed? ==> IsGrammarName(ParseNameString(i, c).value)
  {
    RulesMake();
    hide NamePath;
    if ParseNameString(i, c).Parsed? {
      var name := ParseNameString(i, c).value;
      if i[0] == ROOT_CHAR {
        AllAreSegments(i[1..], c);
        assert name[1..] == NamePath<C>()(i[1..], c).value;
      } else if i[0] == PREFIX_CHAR {
        var counted := TakeWhile(Opcode<C>(PREFIX_CHAR))(i, c);
        AllAreSegments(counted.rest, counted.ctx);
        var path := NamePath<C>()(counted.rest, counted.ctx).value;
        assert name == Prefixes(counted.value) + path;
        PrefixesLead(counted.value, path);
        CaretCounted(i, c);
      } else {
        AllAreSegments(i, c);
        PrefixesLead(0, name);
        assert Prefixes(0) + name == name;
      }
    }
  }

  lemma CaretCounted<C>(i: Bytes, c: C)
    requires i != [] && i[0] == PREFIX_CHAR
    ensures var r := TakeWhile(Opcode<C>(PREFIX_CHAR))(i, c); r.Parsed? ==> r.value > 0
  {
  }

  lemma {:induction false} PrefixesLead(n: nat, path: AmlName)
    requires AllSegments(path)
    ensures LeadingPrefixes(Prefixes(n) + path) == n && (Prefixes(n) + path)[n..] == path
  {
    var name := Prefixes(n) + path;
    assert name[n..] == path;
    if n > 0 {
      PrefixesLead(n - 1, path);
      assert name[1..] == Prefixes(n - 1) + path;
    }
  }

  /** Every name of the grammar with at most 255 segments has an encoding. */
  function PartsOf(name: GrammarName): Parts {
    if IsPath(name) then Parts(true, 0, SegsOf(name))
    else
      var k := LeadingPrefixes(name);
      Parts(false, k, seq(|name| - k, j requires 0 <= j < |name| - k => assert name[k..][j].Segment?; name[k + j].seg))
  }

  lemma PartsOfName(name: GrammarName)
    ensures NameOf(PartsOf(name)) == name
    ensures |PartsOf(name).segs| <= 255 ==> IsEncodable(PartsOf(name))
  {
    if IsPath(name) {
      PathOfSegs(name);
      assert NameOf(PartsOf(name)) == PathOf(SegsOf(name));
    } else {
      var k := LeadingPrefixes(name);
      assert forall j :: 0 <= j < |name| - k ==> name[k..][j].Segment?;
    }
  }

  // ---- The name parsers return suffixes ----

  lemma NameSegSuffixing<C(!new)>()
    ensures Suffixing(NameSegParser<C>())
  {
    forall i: Bytes, c: C ensures IsSuffix(NameSegParser<C>()(i, c).rest, i) {}
  }

  lemma NamePathSuffixing<C(!new)>()
    ensures Suffixing(NamePath<C>())
  {
    NameSegSuffixing<C>();
    var seg, any := NameSegParser<C>(), (_: byte) => true;
    PrimitivesSuffixing<C>(NULL_NAME, any, 0);
    PrimitivesSuffixing<C>(DUAL_NAME_PREFIX, any, 0);
    MapSuffixing(Opcode<C>(NULL_NAME), NoComponents);
    ThenSuffixing(Opcode<C>(DUAL_NAME_PREFIX), seg);
    ThenSuffixing(Then(Opcode<C>(DUAL_NAME_PREFIX), seg), seg);
    MapSuffixing(Then(Then(Opcode<C>(DUAL_NAME_PREFIX), seg), seg), TwoComponents);
    MultiNameSuffixing<C>();
    MapSuffixing(seg, OneComponent);
    ChoiceSuffixing([NullName<C>(), DualNamePath<C>(), MultiNamePath<C>(), SingleName<C>()]);
  }

  lemma MultiNameSuffixing<C(!new)>()
    ensures Suffixing(MultiNamePath<C>())
  {
    NameSegSuffixing<C>();
    PrimitivesSuffixing<C>(MULTI_NAME_PREFIX, (_: byte) => true, 0);
    ThenSuffixing(Opcode<C>(MULTI_NAME_PREFIX), Take<C>());
    forall i: Bytes, c: C
      ensures !ParseMultiNamePath(i, c).Stuck? ==> IsSuffix(ParseMultiNamePath(i, c).rest, i)
    {
      var r := Then(Opcode<C>(MULTI_NAME_PREFIX), Take<C>())(i, c);
      if r.Parsed? {
        NOfSuffixing(NameSegParser<C>(), r.value.1);
        var s := NOf(NameSegParser<C>(), r.value.1)(r.rest, r.ctx);
        if s.Parsed? { SuffixTrans(s.rest, r.rest, i); }
      }
    }
  }

  /** `name_string` gives back a suffix of its input, whether it succeeds or fails. */
  lemma NameStringSuffixing<C(!new)>()
    ensures Suffixing(NameString<C>())
  {
    NamePathSuffixing<C>();
    var any := (_: byte) => true;
    PrimitivesSuffixing<C>(ROOT_CHAR, any, 0);
    PrimitivesSuffixing<C>(PREFIX_CHAR, any, 0);
    TakeWhileSuffixing(Opcode<C>(PREFIX_CHAR));
    ThenSuffixing(Opcode<C>(ROOT_CHAR), NamePath<C>());
    ThenSuffixing(TakeWhile(Opcode<C>(PREFIX_CHAR)), NamePath<C>());
    MapSuffixing(Then(Opcode<C>(ROOT_CHAR), NamePath<C>()), Rooted);
    MapSuffixing(Then(TakeWhile(Opcode<C>(PREFIX_CHAR)), NamePath<C>()), Prefixed);
    MapSuffixing(NamePath<C>(), NonEmpty);
    hide NamePath, Map, Then;
    forall i: Bytes, c: C ensures !NameString<C>()(i, c).Stuck? ==> IsSuffix(NameString<C>()(i, c).rest, i) {
    }
  }
}
