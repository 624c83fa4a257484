/** Package lengths (aml/src/pkg_length.rs, aml/src/parser.rs:175-190; section 20.2.4 of the ACPI specification). */
module PkgLengths {
  import opened Types
  import opened Interpreter
  import opened Parsers
  import Bits

  datatype PkgLength = PkgLength(rawLength: u32, endOffset: u32)

  function FromRawLength(stream: Bytes, rawLength: u32): Result<PkgLength> {
    if Len32(stream) < rawLength then Err(InvalidPkgLength)
    else
      var endOffset: nat := Len32(stream) - rawLength;
      Ok(PkgLength(rawLength, endOffset))
  }

  /** The fold over the extra bytes: byte `i` is shifted left by `4 + 8 i`. */
  function AddBytes(length: nat, bytes: Bytes, i: nat): nat
    decreases |bytes|
  {
    if bytes == [] then length else
      var b: nat := bytes[0];
      AddBytes(length + b * (16 * Bits.Pow256(i)), bytes[1..], i + 1)
  }

  lemma FoldUpToThree(low: nat, bytes: Bytes)
    requires |bytes| <= 3
    ensures var a: nat := if |bytes| > 0 then bytes[0] else 0;
            var b: nat := if |bytes| > 1 then bytes[1] else 0;
            var c: nat := if |bytes| > 2 then bytes[2] else 0;
            AddBytes(low, bytes, 0) == low + 16 * a + 0x1000 * b + 0x10_0000 * c
  {
    assert Bits.Pow256(0) == 1 && Bits.Pow256(1) == 256 && Bits.Pow256(2) == 0x1_0000;
    if |bytes| > 0 {
      var a: nat := bytes[0];
      assert AddBytes(low, bytes, 0) == AddBytes(low + 16 * a, bytes[1..], 1);
      if |bytes| > 1 {
        var b: nat := bytes[1];
        assert AddBytes(low + 16 * a, bytes[1..], 1) == AddBytes(low + 16 * a + 0x1000 * b, bytes[1..][1..], 2);
        assert |bytes| == 3 ==> bytes[1..][1..][0] == bytes[2] && bytes[1..][1..][1..] == [];
      }
    }
  }

  /** The sum the code keeps in 32 bits never reaches 2^28. */
  lemma NoOverflow(low: nat, bytes: Bytes)
    requires low < 16 && |bytes| <= 3
    ensures AddBytes(low, bytes, 0) < 0x1000_0000
  {
    FoldUpToThree(low, bytes);
  }

  function ParseRawPkgLength<C>(i: Bytes, c: C): ParseResult<C, u32> {
    if i == [] then Halted(i, c, PErr(UnexpectedEndOfStream))
    else
      var lead: nat := i[0];
      var count := lead / 64;
      if count == 0 then
        var length: nat := lead % 64;
        Parsed(i[1..], c, length)
      else if Len32(i[1..]) < count then Halted(i, c, PErr(UnexpectedEndOfStream))
      else
        var bytes := i[1..][..count];
        NoOverflow(lead % 16, bytes);
        Parsed(i[1..][count..], c, AddBytes(lead % 16, bytes, 0))
  }

  /** `raw_pkg_length`; `take_n` is spelt out, its error being replaced by one at the original stream. */
  function ParsePkgLength<C>(i: Bytes, c: C): ParseResult<C, PkgLength> {
    match ParseRawPkgLength(i, c)
    case Parsed(rest, c1, raw) =>
      (match FromRawLength(i, raw)
       case Ok(pkg) => Parsed(rest, c1, pkg)
       case Err(e) => Halted(i, c1, PErr(e)))
    case Halted(rest, c1, why) => Halted(rest, c1, why)
    case Stuck => Stuck
  }

  function PkgLengthParser<C>(): Parser<C, PkgLength> { (i, c) => ParsePkgLength(i, c) }

  function TakeToEndOfPkgLength<C>(length: PkgLength): Parser<C, Bytes> {
    (i, c) =>
      if Len32(i) < length.endOffset then Halted(i, c, PErr(InvalidPkgLength))
      else
        var count: nat := Len32(i) - length.endOffset;
        TakeN<C>(count)(i, c)
  }

  // ---- Encoding ----

  /** The shortest encoding of a length. */
  function EncodePkgLength(n: nat): Bytes
    requires n < 0x1000_0000
  {
    if n < 64 then [n]
    else if n < 0x1000 then [64 + n % 16, n / 16]
    else if n < 0x10_0000 then [128 + n % 16, n / 16 % 256, n / 16 / 256]
    else [192 + n % 16, n / 16 % 256, n / 16 / 256 % 256, n / 16 / 256 / 256]
  }

  /** What the bytes of a long encoding add up to. */
  lemma EncodingAddsUp(n: nat)
    requires 64 <= n < 0x1000_0000
    ensures var e := EncodePkgLength(n);
            var lead: nat := e[0];
            && 2 <= |e| <= 4 && lead / 64 == |e| - 1 && lead % 16 == n % 16
            && AddBytes(n % 16, e[1..], 0) == n
  {
    hide AddBytes;
    var e := EncodePkgLength(n);
    FoldUpToThree(n % 16, e[1..]);
    var q1 := n / 16;
    var q2 := q1 / 256;
    var q3 := q2 / 256;
    assert n == n % 16 + 16 * q1 && q1 == q1 % 256 + 256 * q2 && q2 == q2 % 256 + 256 * q3;
    if n < 0x1000 {
      assert e[1..] == [q1];
    } else if n < 0x10_0000 {
      assert e[1..] == [q1 % 256, q2];
    } else {
      assert e[1..] == [q1 % 256, q2 % 256, q3];
    }
  }

  /** Decoding inverts encoding for every length below 2^28, whatever follows. */
  lemma PkgLengthRoundTrip<C>(n: nat, trailer: Bytes, ctx: C)
    requires n < 0x1000_0000 && |trailer| < 0xffff_fff0
    ensures ParseRawPkgLength(EncodePkgLength(n) + trailer, ctx) == Parsed(trailer, ctx, n)
  {
    var e := EncodePkgLength(n);
    var i := e + trailer;
    var k := |e| - 1;
    if n >= 64 { EncodingAddsUp(n); }
    hide EncodePkgLength, AddBytes;
    assert i[0] == e[0] && i[1..][..k] == e[1..] && i[1..][k..] == trailer;
  }

  function Digit(extra: Bytes, k: nat): nat { if k < |extra| then extra[k] else 0 }

  /** The number an encoding of a length spells, canonical or not. */
  function SpeltLength(lead: byte, extra: Bytes): nat {
    if extra == [] then lead
    else lead % 16 + 16 * (Digit(extra, 0) + 0x100 * Digit(extra, 1) + 0x1_0000 * Digit(extra, 2))
  }

  lemma RawIsItsDigits<C>(lead: byte, extra: Bytes, trailer: Bytes, ctx: C)
    requires |extra| == lead / 64 && |extra| + |trailer| < 0xffff_fff0
    ensures 0 <= SpeltLength(lead, extra) < 0x1000_0000
    ensures ParseRawPkgLength([lead] + extra + trailer, ctx) == Parsed(trailer, ctx, SpeltLength(lead, extra))
  {
    var stream := [lead] + extra + trailer;
    FoldUpToThree(lead % 16, extra);
    NoOverflow(lead % 16, extra);
    hide AddBytes;
    assert stream[1..] == extra + trailer && stream[1..][..|extra|] == extra && stream[1..][|extra|..] == trailer;
    if extra == [] { assert stream[1..] == trailer; }
  }

  /**
   The top two bits of the lead byte say how many bytes follow; the low six are the length, or the low four and
   those bytes are, lowest first. A stream shorter than the length read from it is refused where it starts.
   */
  lemma LengthIsItsDigits<C>(lead: byte, extra: Bytes, trailer: Bytes, ctx: C)
    requires |extra| == lead / 64 && |extra| + |trailer| < 0xffff_fff0
    ensures var stream, n := [lead] + extra + trailer, SpeltLength(lead, extra);
            ParsePkgLength(stream, ctx) ==
            if n <= |stream| then Parsed(trailer, ctx, PkgLength(n, |stream| - n))
            else Halted(stream, ctx, PErr(InvalidPkgLength))
  {
    hide ParseRawPkgLength, SpeltLength;
    RawIsItsDigits(lead, extra, trailer, ctx);
  }

  /**
   Once a package length is read from a stream shorter than 2^32 and `used` bytes in all are gone, taking to
   its end leaves the stream without its first `rawLength` bytes; it fails exactly when more is already gone.
   */
  lemma PackageEndsWhereItSays<C>(stream: Bytes, ctx: C, used: nat, ctx2: C)
    requires |stream| < 0x1_0000_0000 && used <= |stream|
    requires ParsePkgLength(stream, ctx).Parsed?
    ensures var pkg := ParsePkgLength(stream, ctx).value;
            var r := TakeToEndOfPkgLength<C>(pkg)(stream[used..], ctx2);
            && pkg.rawLength <= |stream|
            && if used <= pkg.rawLength
               then r == Parsed(stream[pkg.rawLength..], ctx2, stream[used..pkg.rawLength])
               else r == Halted(stream[used..], ctx2, PErr(InvalidPkgLength))
  {
    hide ParseRawPkgLength;
    var pkg := ParsePkgLength(stream, ctx).value;
    assert Len32(stream) == |stream| && Len32(stream[used..]) == |stream| - used;
    if used <= pkg.rawLength {
      var n := pkg.rawLength - used;
      assert stream[used..][n..] == stream[pkg.rawLength..];
      assert stream[used..][..n] == stream[used..pkg.rawLength];
    }
  }

  /** The parsed length is the encoded one, so a canonical package of `n` bytes is taken whole and no more. */
  lemma PackageRoundTrip<C>(n: nat, payload: Bytes, trailer: Bytes, ctx: C)
    requires n < 0x1000_0000 && |EncodePkgLength(n)| + |payload| == n
    requires |payload| + |trailer| < 0xffff_fff0
    ensures var stream := EncodePkgLength(n) + payload + trailer;
            Feed(PkgLengthParser<C>(), (pkg: PkgLength) => TakeToEndOfPkgLength<C>(pkg))(stream, ctx)
              == Parsed(trailer, ctx, payload)
  {
    var e := EncodePkgLength(n);
    var stream := e + payload + trailer;
    assert stream == e + (payload + trailer);
    PkgLengthRoundTrip(n, payload + trailer, ctx);
    assert stream[|e|..] == payload + trailer;
    PackageEndsWhereItSays(stream, ctx, |e|, ctx);
    assert stream[n..] == trailer && stream[|e|..n] == payload;
  }
}
