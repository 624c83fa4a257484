/**
 Names as text (aml/src/namespace.rs:397-436, aml/src/name_object.rs:176-201). Text is the bytes of a
 `str`; every byte outside ASCII is rejected by the character tests, as in the source.
 */
module NameText {
  import opened Types
  import opened Names

  const DOT: byte := '.' as int
  const CARET: byte := '^' as int
  const BACKSLASH: byte := '\\' as int
  const UNDERSCORE: byte := '_' as int

  type Text = seq<byte>

  // ---- Segments ----

  predicate IsSegText(t: Text) {
    1 <= |t| <= 4 && IsLeadNameChar(t[0]) && forall i :: 0 < i < |t| ==> IsNameChar(t[i])
  }

  function PadSeg(t: Text): Text
    requires |t| <= 4
  {
    t + [UNDERSCORE, UNDERSCORE, UNDERSCORE, UNDERSCORE][|t|..]
  }

  lemma PaddedIsSeg(t: Text)
    requires IsSegText(t)
    ensures IsNameSeg(PadSeg(t))
  {
    var r := PadSeg(t);
    assert forall i :: 0 <= i < |t| ==> r[i] == t[i];
  }

  /** Padding keeps the characters in place and fills up with underscores. */
  lemma PaddingIs(t: Text, i: nat)
    requires |t| <= 4 && i < 4
    ensures |PadSeg(t)| == 4 && PadSeg(t)[i] == if i < |t| then t[i] else '_' as int
  {
    assert i >= |t| ==> PadSeg(t)[i] == [UNDERSCORE, UNDERSCORE, UNDERSCORE, UNDERSCORE][i];
  }

  /** `NameSeg::from_str`: fills a four-byte buffer of underscores, checking each character. */
  method SegFromStr(t: Text) returns (r: Result<NameSeg>)
    ensures r.Ok? <==> IsSegText(t)
    ensures r.Ok? ==> r.value == PadSeg(t)
    ensures r.Err? ==> r.error == InvalidNameSeg
  {
    if |t| < 1 || |t| > 4 { return Err(InvalidNameSeg); }
    var seg := new byte[4](_ => UNDERSCORE);
    if !IsLeadNameChar(t[0]) { return Err(InvalidNameSeg); }
    seg[0] := t[0];
    for i := 1 to |t|
      invariant forall j :: 0 <= j < i ==> seg[j] == t[j]
      invariant forall j :: i <= j < 4 ==> seg[j] == UNDERSCORE
      invariant forall j :: 0 < j < i ==> IsNameChar(t[j])
    {
      if !IsNameChar(t[i]) { return Err(InvalidNameSeg); }
      seg[i] := t[i];
    }
    PaddedIsSeg(t);
    assert seg[..] == PadSeg(t);
    r := Ok(seg[..]);
  }

  // ---- Splitting at dots ----

  function FirstDot(t: Text): (k: nat)
    ensures k <= |t| && (k < |t| ==> t[k] == DOT) && DOT !in t[..k]
  {
    if t == [] || t[0] == DOT then 0 else
      var k := FirstDot(t[1..]);
      assert t[..1 + k] == [t[0]] + t[1..][..k];
      1 + k
  }

  /** `str::split('.')`. */
  function Split(t: Text): (parts: seq<Text>)
    ensures |parts| > 0
    decreases |t|
  {
    var k := FirstDot(t);
    if k == |t| then [t] else [t[..k]] + Split(t[k + 1..])
  }

  function Join(parts: seq<Text>): Text
    requires |parts| > 0
    decreases |parts|
  {
    if |parts| == 1 then parts[0] else parts[0] + [DOT] + Join(parts[1..])
  }

  lemma FirstDotIs(t: Text, k: nat)
    requires k <= |t| && (k < |t| ==> t[k] == DOT) && DOT !in t[..k]
    ensures FirstDot(t) == k
  {
  }

  lemma {:induction false} SplitJoin(parts: seq<Text>)
    requires |parts| > 0 && forall i :: 0 <= i < |parts| ==> DOT !in parts[i]
    ensures Split(Join(parts)) == parts
    decreases |parts|
  {
    var t := Join(parts);
    if |parts| == 1 {
      assert t[..|t|] == t;
      FirstDotIs(t, |t|);
    } else {
      assert t[..|parts[0]|] == parts[0];
      FirstDotIs(t, |parts[0]|);
      assert t[|parts[0]| + 1..] == Join(parts[1..]);
      SplitJoin(parts[1..]);
    }
  }

  // ---- Parsing: the specification ----

  function Carets(t: Text): (k: nat)
    ensures k <= |t| && (forall i :: 0 <= i < k ==> t[i] == CARET) && (k < |t| ==> t[k] != CARET)
  {
    if t == [] || t[0] != CARET then 0 else 1 + Carets(t[1..])
  }

  function Repeat(b: byte, n: nat): Text { seq(n, _ => b) }

  /** One dot-separated part: carets, then a segment. */
  predicate IsPart(t: Text) { IsSegText(t[Carets(t)..]) }

  predicate AllParts(parts: seq<Text>) { forall i :: 0 <= i < |parts| ==> IsPart(parts[i]) }

  function PartName(t: Text): AmlName
    requires IsPart(t)
  {
    PaddedIsSeg(t[Carets(t)..]);
    Prefixes(Carets(t)) + [Segment(PadSeg(t[Carets(t)..]))]
  }

  function PartsName(parts: seq<Text>): AmlName
    requires AllParts(parts)
    decreases |parts|
  {
    if parts == [] then [] else PartName(parts[0]) + PartsName(parts[1..])
  }

  function Body(t: Text): Text { if t != [] && t[0] == BACKSLASH then t[1..] else t }

  function Lead(t: Text): AmlName { if t != [] && t[0] == BACKSLASH then [Root] else [] }

  function BodyParts(t: Text): seq<Text> { if Body(t) == [] then [] else Split(Body(t)) }

  predicate IsNameText(t: Text) {
    t != [] && AllParts(BodyParts(t))
  }

  function ParseName(t: Text): (r: Result<AmlName>) {
    if t == [] then Err(EmptyNamesAreInvalid)
    else if IsNameText(t) then Ok(Lead(t) + PartsName(BodyParts(t)))
    else Err(InvalidNameSeg)
  }

  // ---- Parsing: the code ----

  /** The loop body of `AmlName::from_str`: one part's carets, then its segment. */
  method PartFromStr(t: Text) returns (r: Result<AmlName>)
    ensures r.Ok? <==> IsPart(t)
    ensures r.Ok? ==> r.value == PartName(t)
    ensures r.Err? ==> r.error == InvalidNameSeg
  {
    var components: AmlName := [];
    var part := t;
    while |part| > 0 && part[0] == CARET
      invariant |part| <= |t| && part == t[|t| - |part|..]
      invariant |t| - |part| + Carets(part) == Carets(t)
      invariant components == Prefixes(|t| - |part|)
      decreases |part|
    {
      components := components + [Prefix];
      part := part[1..];
    }
    var seg := SegFromStr(part);
    if seg.Err? { return Err(seg.error); }
    r := Ok(components + [Segment(seg.value)]);
  }

  /** The loop of `AmlName::from_str` over the parts. */
  method PartsFromStr(parts: seq<Text>) returns (r: Result<AmlName>)
    ensures r.Ok? <==> AllParts(parts)
    ensures r.Ok? ==> r.value == PartsName(parts)
    ensures r.Err? ==> r.error == InvalidNameSeg
  {
    hide PartName, IsPart;
    var components: AmlName := [];
    var k := 0;
    while k < |parts|
      invariant 0 <= k <= |parts| && AllParts(parts[..k])
      invariant components == PartsName(parts[..k])
    {
      var name := PartFromStr(parts[k]);
      if name.Err? { return Err(name.error); }
      PartsNameSnoc(parts, k);
      components := components + name.value;
      k := k + 1;
    }
    assert parts[..k] == parts;
    r := Ok(components);
  }

  /** `AmlName::from_str`. */
  method FromStr(t: Text) returns (r: Result<AmlName>)
    ensures r == ParseName(t)
  {
    if |t| == 0 { return Err(EmptyNamesAreInvalid); }
    var name := PartsFromStr(BodyParts(t));
    if name.Err? { return Err(name.error); }
    r := Ok(Lead(t) + name.value);
  }

  /**
   Text without dots, carets and backslashes is a name exactly if it is one to four capitals, underscores and
   digits that do not start with a digit, and the name is that one segment.
   */
  lemma OneSegmentParses(t: Text)
    requires DOT !in t && CARET !in t && BACKSLASH !in t
    ensures var valid := 1 <= |t| <= 4 && forall i :: 0 <= i < |t| ==>
              'A' as int <= t[i] <= 'Z' as int || t[i] == '_' as int || (i > 0 && '0' as int <= t[i] <= '9' as int);
            ParseName(t) == if t == [] then Err(EmptyNamesAreInvalid)
                            else if valid then (assert IsNameSeg(PadSeg(t)); Ok([Segment(PadSeg(t))]))
                            else Err(InvalidNameSeg)
  {
    FirstDotIs(t, |t|);
    assert t[0..] == t;
    if t != [] {
      assert BodyParts(t) == [t] && Carets(t) == 0;
      assert [t][1..] == [];
      assert IsPart(t) == IsSegText(t) && IsNameText(t) == IsPart([t][0]);
      assert Lead(t) == [];
      if IsSegText(t) {
        PaddedIsSeg(t);
        assert PartName(t) == [Segment(PadSeg(t))];
        assert PartsName([t]) == PartName(t) + PartsName([]) == PartName(t);
        assert ParseName(t) == Ok([Segment(PadSeg(t))]);
      } else {
        assert ParseName(t) == Err(InvalidNameSeg);
      }
    }
  }

  lemma PartsNameSnoc(parts: seq<Text>, k: nat)
    requires k < |parts| && AllParts(parts[..k]) && IsPart(parts[k])
    ensures AllParts(parts[..k + 1])
    ensures PartsName(parts[..k + 1]) == PartsName(parts[..k]) + PartName(parts[k])
  {
    assert parts[..k + 1] == parts[..k] + [parts[k]];
    PartsNameAppends(parts[..k], [parts[k]]);
  }

  lemma {:induction false} PartsNameAppends(a: seq<Text>, b: seq<Text>)
    requires AllParts(a)
    requires AllParts(b)
    ensures PartsName(a + b) == PartsName(a) + PartsName(b)
    decreases |a|
  {
    if a == [] {
      assert a + b == b;
    } else {
      assert (a + b)[1..] == a[1..] + b;
      PartsNameAppends(a[1..], b);
    }
  }

  // ---- Printing ----

  /** The fold of `as_string`, before trailing dots are trimmed. */
  function Render(n: AmlName): Text
    decreases |n|
  {
    if n == [] then [] else
      (match n[0] case Root => [BACKSLASH] case Prefix => [CARET] case Segment(s) => s + [DOT]) + Render(n[1..])
  }

  function TrimDots(t: Text): Text
    decreases |t|
  {
    if t != [] && t[|t| - 1] == DOT then TrimDots(t[..|t| - 1]) else t
  }

  function AsString(n: AmlName): Text { TrimDots(Render(n)) }

  /** The text with every segment padded to four characters. */
  function PadPart(t: Text): Text
    requires IsPart(t)
  {
    t[..Carets(t)] + PadSeg(t[Carets(t)..])
  }

  function PadParts(parts: seq<Text>): (r: seq<Text>)
    requires AllParts(parts)
    ensures |r| == |parts| && forall i :: 0 <= i < |parts| ==> r[i] == PadPart(parts[i])
    decreases |parts|
  {
    if parts == [] then [] else [PadPart(parts[0])] + PadParts(parts[1..])
  }

  function PadText(t: Text): Text
    requires IsNameText(t)
  {
    (if t[0] == BACKSLASH then [BACKSLASH] else []) +
    (if BodyParts(t) == [] then [] else Join(PadParts(BodyParts(t))))
  }

  lemma {:induction false} RenderAppends(a: AmlName, b: AmlName)
    ensures Render(a + b) == Render(a) + Render(b)
    decreases |a|
  {
    if a == [] {
      assert a + b == b;
    } else {
      assert (a + b)[1..] == a[1..] + b;
      RenderAppends(a[1..], b);
    }
  }

  lemma {:induction false} RenderPrefixes(n: nat)
    ensures Render(Prefixes(n)) == Repeat(CARET, n)
  {
    if n > 0 {
      assert Prefixes(n)[1..] == Prefixes(n - 1);
      RenderPrefixes(n - 1);
    }
  }

  lemma RenderPart(t: Text)
    requires IsPart(t)
    ensures Render(PartName(t)) == PadPart(t) + [DOT]
  {
    var k := Carets(t);
    var last := [Segment(PadSeg(t[k..]))];
    RenderAppends(Prefixes(k), last);
    RenderPrefixes(k);
    assert Repeat(CARET, k) == t[..k];
    assert Render(last) == PadSeg(t[k..]) + [DOT] by { assert last[1..] == []; }
  }

  lemma {:induction false} RenderParts(parts: seq<Text>)
    requires |parts| > 0 && AllParts(parts)
    ensures Render(PartsName(parts)) == Join(PadParts(parts)) + [DOT]
    decreases |parts|
  {
    RenderPart(parts[0]);
    RenderAppends(PartName(parts[0]), PartsName(parts[1..]));
    if |parts| == 1 {
      assert Render(PartsName(parts[1..])) == [];
    } else {
      RenderParts(parts[1..]);
      assert PadParts(parts)[1..] == PadParts(parts[1..]);
    }
  }

  lemma {:induction false} JoinEndsInNameChar(parts: seq<Text>)
    requires |parts| > 0 && AllParts(parts)
    ensures var j := Join(PadParts(parts)); |j| > 0 && j[|j| - 1] != DOT
    decreases |parts|
  {
    PaddedIsSeg(parts[0][Carets(parts[0])..]);
    if |parts| > 1 {
      JoinEndsInNameChar(parts[1..]);
      assert PadParts(parts)[1..] == PadParts(parts[1..]);
    }
  }

  lemma TrimOne(t: Text)
    requires t != [] && t[|t| - 1] != DOT
    ensures TrimDots(t + [DOT]) == t
  {
    assert (t + [DOT])[..|t|] == t;
  }

  /** Printing what was parsed gives the text back, each segment padded to four characters. */
  lemma AsStringOfParse(t: Text)
    requires IsNameText(t)
    ensures AsString(ParseName(t).value) == PadText(t)
  {
    hide IsPart, PadParts, PartName, Join, Split;
    var parts := BodyParts(t);
    var lead := if t[0] == BACKSLASH then [BACKSLASH] else [];
    RenderAppends(Lead(t), PartsName(parts));
    assert Render(Lead(t)) == lead;
    if parts == [] {
      assert Render(ParseName(t).value) == [BACKSLASH];
    } else {
      RenderParts(parts);
      JoinEndsInNameChar(parts);
      var j := Join(PadParts(parts));
      assert lead + (j + [DOT]) == lead + j + [DOT];
      TrimOne(lead + j);
    }
  }

  // ---- Padding changes nothing about the name ----

  lemma PadPartIsPart(t: Text)
    requires IsPart(t)
    ensures IsPart(PadPart(t)) && PartName(PadPart(t)) == PartName(t)
    ensures DOT !in PadPart(t) && PadPart(t)[0] != BACKSLASH
  {
    hide Carets, PadSeg, IsNameSeg, IsNameChar, IsLeadNameChar;
    var k := Carets(t);
    var seg := PadSeg(t[k..]);
    PaddedIsSeg(t[k..]);
    SegIsPadded(seg);
    var p := t[..k] + seg;
    assert p[k] == seg[0] && p[k..] == seg;
    CaretsIs(p, k);
  }

  /** A whole segment is its own padding, and holds none of the marks between segments. */
  lemma SegIsPadded(seg: Text)
    requires IsNameSeg(seg)
    ensures |seg| == 4 && IsSegText(seg) && PadSeg(seg) == seg
    ensures DOT !in seg && seg[0] != BACKSLASH && seg[0] != CARET
  {
  }

  lemma CaretsIs(t: Text, k: nat)
    requires k < |t| && t[k] != CARET && forall i :: 0 <= i < k ==> t[i] == CARET
    ensures Carets(t) == k
  {
  }

  lemma {:induction false} SamePartNames(a: seq<Text>, b: seq<Text>)
    requires |a| == |b|
    requires forall i :: 0 <= i < |a| ==> IsPart(a[i]) && IsPart(b[i]) && PartName(a[i]) == PartName(b[i])
    ensures PartsName(a) == PartsName(b)
    decreases |a|
  {
    if a != [] { SamePartNames(a[1..], b[1..]); }
  }

  /** Joining padded parts and splitting again loses nothing. */
  lemma PaddedPartsJoin(parts: seq<Text>)
    requires |parts| > 0 && AllParts(parts)
    ensures var p := PadParts(parts);
            && AllParts(p) && PartsName(p) == PartsName(parts)
            && Split(Join(p)) == p && |Join(p)| > 0 && Join(p)[0] != BACKSLASH
  {
    var padded := PadParts(parts);
    forall i | 0 <= i < |parts|
      ensures IsPart(padded[i]) && PartName(padded[i]) == PartName(parts[i])
      ensures DOT !in padded[i] && padded[i][0] != BACKSLASH
    {
      PadPartIsPart(parts[i]);
    }
    SplitJoin(padded);
    SamePartNames(padded, parts);
    assert Join(padded)[0] == padded[0][0];
  }

  /** The padded text names the same thing. */
  lemma PadTextParses(t: Text)
    requires IsNameText(t)
    ensures ParseName(PadText(t)) == ParseName(t)
  {
    var parts := BodyParts(t);
    if parts == [] {
      assert PadText(t) == [BACKSLASH] && t == [BACKSLASH];
    } else {
      PaddedPartsJoin(parts);
      assert Body(PadText(t)) == Join(PadParts(parts));
    }
  }

  // ---- The names that text can give ----

  /** A root may only come first, and a prefix never last. */
  predicate IsTextual(n: AmlName) {
    n != [] && Root !in n[1..] && n[|n| - 1] != Prefix
  }

  lemma {:induction false} PartsNameShape(parts: seq<Text>)
    requires AllParts(parts)
    ensures var n := PartsName(parts); Root !in n && (parts != [] ==> n != [] && n[|n| - 1].Segment?)
    decreases |parts|
  {
    if parts != [] { PartsNameShape(parts[1..]); }
  }

  lemma ParsedIsTextual(t: Text)
    ensures ParseName(t).Ok? ==> IsTextual(ParseName(t).value)
  {
    if ParseName(t).Ok? { PartsNameShape(BodyParts(t)); }
  }

  lemma CaretPart(t: Text)
    requires IsPart(t)
    ensures IsPart([CARET] + t) && PartName([CARET] + t) == [Prefix] + PartName(t)
  {
    var c := [CARET] + t;
    CaretsIs(c, 1 + Carets(t));
    assert c[1 + Carets(t)..] == t[Carets(t)..];
    assert Prefixes(1 + Carets(t)) == [Prefix] + Prefixes(Carets(t));
  }

  lemma SegPart(s: NameSeg)
    ensures IsPart(s) && PartName(s) == [Segment(s)]
  {
    CaretsIs(s, 0);
    assert s[0..] == s;
    assert PadSeg(s) == s;
    assert Prefixes(0) == [];
  }

  /** A root-free name that ends in a segment. */
  predicate IsSpellable(n: AmlName) { Root !in n && (n != [] ==> n[|n| - 1].Segment?) }

  lemma TailIsSpellable(n: AmlName)
    requires n != [] && IsSpellable(n)
    ensures IsSpellable(n[1..]) && (n[0] == Prefix ==> n[1..] != [])
  {
    assert |n| > 1 ==> n[1..][|n| - 2] == n[|n| - 1];
  }

  function Spell(n: AmlName): (parts: seq<Text>)
    requires IsSpellable(n)
    ensures n != [] ==> parts != []
    decreases |n|
  {
    if n == [] then [] else
      TailIsSpellable(n);
      var rest := Spell(n[1..]);
      if n[0].Segment? then [n[0].seg] + rest else [[CARET] + rest[0]] + rest[1..]
  }

  lemma PartsNameCons(p: Text, rest: seq<Text>)
    requires IsPart(p) && AllParts(rest)
    ensures AllParts([p] + rest) && PartsName([p] + rest) == PartName(p) + PartsName(rest)
  {
    assert ([p] + rest)[1..] == rest;
  }

  lemma CaretFirst(p: Text, c: Text, rest: seq<Text>)
    requires IsPart(p) && IsPart(c) && PartName(c) == [Prefix] + PartName(p) && AllParts(rest)
    ensures AllParts([c] + rest) && PartsName([c] + rest) == [Prefix] + (PartName(p) + PartsName(rest))
  {
    hide IsPart, PartName, PartsName;
    PartsNameCons(c, rest);
    var q := PartsName(rest);
    assert [Prefix] + PartName(p) + q == [Prefix] + (PartName(p) + q);
  }

  lemma {:induction false} SpellIsRight(n: AmlName)
    requires IsSpellable(n)
    ensures AllParts(Spell(n)) && PartsName(Spell(n)) == n
    decreases |n|
  {
    if n != [] {
      TailIsSpellable(n);
      SpellIsRight(n[1..]);
      var rest := Spell(n[1..]);
      assert n == [n[0]] + n[1..];
      if n[0].Segment? {
        SegPart(n[0].seg);
        PartsNameCons(n[0].seg, rest);
      } else {
        CaretPart(rest[0]);
        CaretFirst(rest[0], [CARET] + rest[0], rest[1..]);
      }
    }
  }

  /** The text of spelt parts parses to the name they spell. */
  lemma SpeltParses(lead: Text, parts: seq<Text>)
    requires lead == [] || lead == [BACKSLASH]
    requires |parts| > 0 && AllParts(parts)
    ensures ParseName(lead + Join(PadParts(parts))) == Ok((if lead == [] then [] else [Root]) + PartsName(parts))
  {
    hide IsPart, PadParts, PartsName, Join, Split;
    PaddedPartsJoin(parts);
    var t := lead + Join(PadParts(parts));
    assert Body(t) == Join(PadParts(parts));
    assert BodyParts(t) == PadParts(parts);
  }

  lemma TextualHasText(n: AmlName) returns (t: Text)
    requires IsTextual(n)
    ensures ParseName(t) == Ok(n)
  {
    if n == [Root] {
      t := [BACKSLASH];
      assert BodyParts(t) == [] && Lead(t) + PartsName([]) == [Root];
    } else {
      var lead := if n[0] == Root then [BACKSLASH] else [];
      var body := if n[0] == Root then n[1..] else n;
      assert IsSpellable(body) by {
        assert body[|body| - 1] == n[|n| - 1];
        assert n == [n[0]] + n[1..];
      }
      SpellIsRight(body);
      SpeltParses(lead, Spell(body));
      t := lead + Join(PadParts(Spell(body)));
      assert n[0] == Root ==> [Root] + body == n;
      assert n[0] != Root ==> [] + body == n;
    }
  }

  /** Every name that text can give is printed as text that gives it back. */
  lemma ParseOfAsString(n: AmlName)
    requires IsTextual(n)
    ensures ParseName(AsString(n)) == Ok(n)
  {
    var t := TextualHasText(n);
    AsStringOfParse(t);
    PadTextParses(t);
  }

  // ---- A name that is never normalised ----

  /** The text of a root, a prefix and a segment gives an absolute name that resolves to itself, unnormalised. */
  lemma AbsoluteTextIsNotNormalized(seg: NameSeg, scope: AmlName)
    requires IsAbsolute(scope)
    ensures var name := [Root, Prefix, Segment(seg)];
            && ParseName([BACKSLASH, CARET] + seg) == Ok(name)
            && Resolve(name, scope) == Ok(name) && !IsNormal(name)
            && Normalize(name) == Err(InvalidNormalizedName(name))
  {
    var name := [Root, Prefix, Segment(seg)];
    var part := [CARET] + seg;
    SegPart(seg);
    SegIsPadded(seg);
    CaretPart(seg);
    PartsNameCons(part, []);
    assert [part] + [] == [part];
    var t := [BACKSLASH, CARET] + seg;
    assert DOT !in part[..|part|];
    FirstDotIs(part, |part|);
    assert Body(t) == part && BodyParts(t) == [part];
    assert ParseName(t) == Ok([Root] + PartsName([part]));
    assert [Root] + PartsName([part]) == name;
    assert name[1] == Prefix && Overclimbs(name, 1, 2) by {
      assert name[1..2] == [Prefix] && [Prefix][1..] == [];
    }
    NormalizeFailsIff(name);
  }
}
