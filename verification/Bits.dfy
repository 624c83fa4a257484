/** Bits of numbers and of byte buffers, least significant first, as the buffer fields see them. */
module Bits {
  import opened Types

  function Pow2(k: nat): (r: nat)
    ensures r > 0
  {
    if k == 0 then 1 else 2 * Pow2(k - 1)
  }

  // ---- The bits of a number ----

  /** Bit `k`, counted from the least significant. */
  predicate TestBit(n: nat, k: nat)
    decreases k
  {
    if k == 0 then n % 2 == 1 else TestBit(n / 2, k - 1)
  }

  function SetBit(n: nat, k: nat, v: bool): nat
    decreases k
  {
    if k == 0 then n / 2 * 2 + (if v then 1 else 0) else n % 2 + 2 * SetBit(n / 2, k - 1, v)
  }

  lemma {:induction false} TestAfterSet(n: nat, k: nat, v: bool, j: nat)
    ensures TestBit(SetBit(n, k, v), j) == if j == k then v else TestBit(n, j)
    decreases k
  {
    var m := SetBit(n, k, v);
    if k > 0 {
      assert m / 2 == SetBit(n / 2, k - 1, v) && m % 2 == n % 2;
      if j > 0 { TestAfterSet(n / 2, k - 1, v, j - 1); }
    } else {
      assert m / 2 == n / 2;
    }
  }

  lemma {:induction false} SetBitFits(n: nat, k: nat, v: bool, width: nat)
    requires k < width && n < Pow2(width)
    ensures SetBit(n, k, v) < Pow2(width)
    decreases k
  {
    if k > 0 { SetBitFits(n / 2, k - 1, v, width - 1); }
  }

  /** The number whose bits are these, least significant first. */
  function ValueOf(bits: seq<bool>): nat
    decreases |bits|
  {
    if bits == [] then 0 else (if bits[0] then 1 else 0) + 2 * ValueOf(bits[1..])
  }

  lemma {:induction false} TestValueOf(bits: seq<bool>, j: nat)
    requires j < |bits|
    ensures TestBit(ValueOf(bits), j) == bits[j]
    decreases |bits|
  {
    var v := ValueOf(bits);
    assert v / 2 == ValueOf(bits[1..]) && (v % 2 == 1 <==> bits[0]);
    if j > 0 { TestValueOf(bits[1..], j - 1); }
  }

  lemma {:induction false} ValueOfFits(bits: seq<bool>)
    ensures ValueOf(bits) < Pow2(|bits|)
    decreases |bits|
  {
    if bits != [] { ValueOfFits(bits[1..]); }
  }

  lemma MulGrows(d: int, m: nat)
    ensures d >= 1 ==> d * m >= m
    ensures d <= -1 ==> d * m + m <= 0
  {
    if d >= 1 { assert (d - 1) * m >= 0; } else if d <= -1 { assert (-1 - d) * m >= 0; }
  }

  lemma ModUnique(n: nat, q: nat, m: nat, r: nat)
    requires m > 0 && r < m && n == q * m + r
    ensures n % m == r
  {
    var d := n / m - q;
    assert n == n / m * m + n % m;
    assert d * m == n / m * m - q * m;
    MulGrows(d, m);
  }

  lemma HalfOfMod(n: nat, p: nat)
    requires p > 0
    ensures n % (2 * p) == n % 2 + 2 * (n / 2 % p)
  {
    var q, r := n / 2 / p, n / 2 % p;
    assert n / 2 == q * p + r;
    assert n == q * (2 * p) + (n % 2 + 2 * r) by { assert 2 * (q * p) == q * (2 * p); }
    ModUnique(n, q, 2 * p, n % 2 + 2 * r);
  }

  /** Numbers whose first `len` bits agree with `bits` are congruent to it modulo 2^len. */
  lemma {:induction false} ValueOfBits(bits: seq<bool>, n: nat)
    requires forall j :: 0 <= j < |bits| ==> bits[j] == TestBit(n, j)
    ensures ValueOf(bits) == n % Pow2(|bits|)
    decreases |bits|
  {
    if bits != [] {
      forall j | 0 <= j < |bits| - 1 ensures bits[1..][j] == TestBit(n / 2, j) {
        assert bits[j + 1] == TestBit(n, j + 1);
      }
      ValueOfBits(bits[1..], n / 2);
      HalfOfMod(n, Pow2(|bits| - 1));
      assert bits[0] == TestBit(n, 0);
    }
  }

  /** The bits above the first eight. */
  lemma TestAbove(n: nat, j: nat)
    ensures TestBit(n, 8 + j) == TestBit(n / 256, j)
  {
    hide TestBit;
    TwoBitsUp(n, 6 + j);
    TwoBitsUp(n / 4, 4 + j);
    TwoBitsUp(n / 16, 2 + j);
    TwoBitsUp(n / 64, j);
  }

  lemma TwoBitsUp(n: nat, j: nat)
    ensures TestBit(n, 2 + j) == TestBit(n / 4, j)
  {
    assert TestBit(n, 2 + j) == TestBit(n / 2, 1 + j) == TestBit(n / 2 / 2, j);
  }

  lemma {:induction false} TestBelow(n: nat, k: nat, j: nat)
    requires j < k
    ensures TestBit(n % Pow2(k), j) == TestBit(n, j)
    decreases k
  {
    HalfOfMod(n, Pow2(k - 1));
    if j > 0 { TestBelow(n / 2, k - 1, j - 1); }
  }

  // ---- The bits of a buffer ----

  lemma Pow2Of8()
    ensures Pow2(8) == 256
  {
    assert Pow2(4) == 16;
  }

  /** Bit `i` of a buffer: the bits of a byte go from its least significant upwards. */
  predicate Bit(s: Bytes, i: nat)
    requires i < 8 * |s|
  {
    TestBit(s[i / 8], i % 8)
  }

  function PutBit(s: Bytes, i: nat, v: bool): (r: Bytes)
    requires i < 8 * |s|
    ensures |r| == |s|
  {
    Pow2Of8();
    SetBitFits(s[i / 8], i % 8, v, 8);
    s[i / 8 := SetBit(s[i / 8], i % 8, v)]
  }

  lemma BitAfterPut(s: Bytes, i: nat, v: bool, j: nat)
    requires i < 8 * |s| && j < 8 * |s|
    ensures Bit(PutBit(s, i, v), j) == if j == i then v else Bit(s, j)
  {
    if j / 8 == i / 8 { TestAfterSet(s[i / 8], i % 8, v, j % 8); }
  }

  /** Bit `j` of what is stored: the source's, and zero beyond its end. */
  predicate SourceBit(source: Bytes, j: nat) { j < 8 * |source| && Bit(source, j) }

  /** The buffer after the first `n` bits of a store at `offset`. */
  function WriteBits(s: Bytes, offset: nat, n: nat, source: Bytes): (r: Bytes)
    requires offset + n <= 8 * |s|
    ensures |r| == |s|
    decreases n
  {
    if n == 0 then s else PutBit(WriteBits(s, offset, n - 1, source), offset + n - 1, SourceBit(source, n - 1))
  }

  lemma {:induction false} BitAfterWrite(s: Bytes, offset: nat, n: nat, source: Bytes, i: nat)
    requires offset + n <= 8 * |s| && i < 8 * |s|
    ensures Bit(WriteBits(s, offset, n, source), i) ==
            if offset <= i < offset + n then SourceBit(source, i - offset) else Bit(s, i)
    decreases n
  {
    hide PutBit, Bit, SourceBit;
    if n > 0 {
      BitAfterWrite(s, offset, n - 1, source, i);
      BitAfterPut(WriteBits(s, offset, n - 1, source), offset + n - 1, SourceBit(source, n - 1), i);
    }
  }

  // ---- Little-endian numbers ----

  function Pow256(k: nat): (r: nat)
    ensures r > 0
  {
    if k == 0 then 1 else 256 * Pow256(k - 1)
  }

  function LeBytes(n: nat, count: nat): (s: Bytes)
    ensures |s| == count
    decreases count
  {
    if count == 0 then [] else [n % 256] + LeBytes(n / 256, count - 1)
  }

  function LeValue(s: Bytes): nat
    decreases |s|
  {
    if s == [] then 0 else
      var b: nat := s[0];
      b + 256 * LeValue(s[1..])
  }

  lemma {:induction false} LeBytesBit(n: nat, count: nat, j: nat)
    requires j < 8 * count
    ensures Bit(LeBytes(n, count), j) == TestBit(n, j)
    decreases count
  {
    Pow2Of8();
    if j < 8 {
      TestBelow(n, 8, j);
    } else {
      LeBytesBit(n / 256, count - 1, j - 8);
      TestAbove(n, j - 8);
      assert LeBytes(n, count)[j / 8] == LeBytes(n / 256, count - 1)[(j - 8) / 8];
    }
  }

  lemma {:induction false} LeValueBit(s: Bytes, j: nat)
    requires j < 8 * |s|
    ensures TestBit(LeValue(s), j) == Bit(s, j)
    decreases |s|
  {
    Pow2Of8();
    var n := LeValue(s);
    assert n % 256 == s[0] && n / 256 == LeValue(s[1..]);
    if j < 8 {
      TestBelow(n, 8, j);
    } else {
      TestAbove(n, j - 8);
      LeValueBit(s[1..], j - 8);
      assert s[1..][(j - 8) / 8] == s[j / 8];
    }
  }

  lemma {:induction false} LeValueFits(s: Bytes)
    ensures LeValue(s) < Pow2(8 * |s|)
    decreases |s|
  {
    if s != [] {
      LeValueFits(s[1..]);
      Pow2Step(|s| - 1);
    }
  }

  lemma Pow2Step(k: nat)
    ensures Pow2(8 * (k + 1)) == 256 * Pow2(8 * k)
  {
    var m := 8 * k;
    assert Pow2(m + 2) == 4 * Pow2(m) by { assert Pow2(m + 1) == 2 * Pow2(m); }
    assert Pow2(m + 4) == 4 * Pow2(m + 2) by { assert Pow2(m + 3) == 2 * Pow2(m + 2); }
    assert Pow2(m + 6) == 4 * Pow2(m + 4) by { assert Pow2(m + 5) == 2 * Pow2(m + 4); }
    assert Pow2(m + 8) == 4 * Pow2(m + 6) by { assert Pow2(m + 7) == 2 * Pow2(m + 6); }
  }

  function Le16(s: Bytes): u16
    requires |s| == 2
  {
    LeValueBound(s, 2);
    LeValue(s)
  }

  function Le32(s: Bytes): u32
    requires |s| == 4
  {
    LeValueBound(s, 4);
    LeValue(s)
  }

  lemma Powers()
    ensures Pow256(1) == 0x100 && Pow256(2) == 0x1_0000 && Pow256(4) == 0x1_0000_0000
    ensures Pow256(8) == 0x1_0000_0000_0000_0000
  {
    assert Pow256(2) == 0x1_0000;
    assert Pow256(3) == 0x100_0000;
    assert Pow256(5) == 0x100_0000_0000;
    assert Pow256(6) == 0x1_0000_0000_0000;
  }

  lemma {:induction false} LeValueBound(s: Bytes, k: nat)
    requires |s| <= k
    ensures LeValue(s) < Pow256(k)
    ensures k == 2 ==> LeValue(s) < 0x1_0000
    ensures k == 4 ==> LeValue(s) < 0x1_0000_0000
    ensures k == 8 ==> LeValue(s) < 0x1_0000_0000_0000_0000
    decreases k
  {
    Powers();
    if s != [] { LeValueBound(s[1..], k - 1); }
  }

  function Le64(s: Bytes): u64
    requires |s| == 8
  {
    LeValueBound(s, 8);
    LeValue(s)
  }

  lemma {:induction false} LeRoundTrip(n: nat, count: nat)
    requires n < Pow256(count)
    ensures LeValue(LeBytes(n, count)) == n
    decreases count
  {
    if count > 0 {
      LeRoundTrip(n / 256, count - 1);
      assert LeBytes(n, count)[1..] == LeBytes(n / 256, count - 1);
    }
  }
}
