/** PCIe configuration-space addresses (acpi/src/mcfg.rs:37-52). */
module Mcfg {
  import opened Types
  import opened Bits

  datatype Region = Region(baseAddress: u64, segmentGroup: u16, busStart: byte, busEnd: byte)

  /** A function's coordinates. */
  datatype Function = Function(segment: u16, bus: byte, device: byte, number: byte)

  const MIB: nat := 0x10_0000
  const WINDOW: nat := 0x1000

  /** Bitwise or. */
  function BitOr(a: nat, b: nat): nat
    decreases a + b
  {
    if a == 0 then b else if b == 0 then a else
      (if a % 2 == 1 || b % 2 == 1 then 1 else 0) + 2 * BitOr(a / 2, b / 2)
  }

  predicate Handles(r: Region, f: Function) { r.segmentGroup == f.segment && r.busStart <= f.bus <= r.busEnd }

  /** The first region that handles the function. */
  function Find(regions: seq<Region>, f: Function): (k: Option<nat>)
    ensures k.Some? ==> k.value < |regions| && Handles(regions[k.value], f)
    ensures k.Some? ==> forall i :: 0 <= i < k.value ==> !Handles(regions[i], f)
    ensures k.None? ==> forall i :: 0 <= i < |regions| ==> !Handles(regions[i], f)
    decreases |regions|
  {
    if regions == [] then None
    else if Handles(regions[0], f) then Some(0)
    else match Find(regions[1..], f)
      case None =>
        assert forall i :: 0 < i < |regions| ==> regions[i] == regions[1..][i - 1];
        None
      case Some(k) => Some(k + 1)
  }

  /** The offset of a function's window in its region; the shifts are those of the code. */
  function Offset(r: Region, f: Function): nat
    requires r.busStart <= f.bus
  {
    var bus: nat := f.bus - r.busStart;
    BitOr(BitOr(bus * MIB, f.device as nat * 0x8000), f.number as nat * WINDOW)
  }

  function PhysicalAddress(regions: seq<Region>, f: Function): Option<u64> {
    match Find(regions, f)
    case None => None
    case Some(k) => Some((regions[k].baseAddress as nat + Offset(regions[k], f)) % 0x1_0000_0000_0000_0000)
  }

  // ---- Or without carries is addition ----

  lemma {:induction false} OrAdds(a: nat, p: nat, b: nat, q: nat)
    requires p == Pow2(q) && b < p
    ensures BitOr(a * p, b) == a * p + b
    decreases q
  {
    if b != 0 && a * p != 0 && q > 0 {
      assert p == 2 * Pow2(q - 1);
      assert a * p == 2 * (a * Pow2(q - 1));
      OrAdds(a, Pow2(q - 1), b / 2, q - 1);
    }
  }

  lemma ShiftPowers()
    ensures Pow2(12) == WINDOW && Pow2(15) == 0x8000 && Pow2(20) == MIB
  {
    assert Pow2(4) == 16 && Pow2(8) == 256 && Pow2(12) == WINDOW;
    assert Pow2(16) == 0x1_0000;
  }

  /** For a real device and function number the bit-packed offset is a sum. */
  lemma OffsetIsSum(r: Region, f: Function)
    requires r.busStart <= f.bus && f.device < 32 && f.number < 8
    ensures Offset(r, f) == (f.bus - r.busStart) as nat * MIB + f.device as nat * 0x8000 + f.number as nat * WINDOW
  {
    ShiftPowers();
    var bus: nat, device: nat, number: nat := f.bus - r.busStart, f.device, f.number;
    OrAdds(bus, MIB, device * 0x8000, 20);
    var high := bus * 32 + device;
    assert bus * MIB + device * 0x8000 == high * 0x8000;
    OrAdds(high, 0x8000, number * WINDOW, 15);
  }

  // ---- The address map ----

  function Size(r: Region): nat
    requires r.busStart <= r.busEnd
  {
    (r.busEnd - r.busStart + 1) as nat * MIB
  }

  predicate HasBuses(r: Region) { r.busStart <= r.busEnd }

  function End(r: Region): nat
    requires HasBuses(r)
  {
    r.baseAddress as nat + Size(r)
  }

  /** Regions with buses have memory ranges that stay below 2^64 and do not meet. */
  predicate AreDisjoint(regions: seq<Region>) {
    && (forall i :: 0 <= i < |regions| && HasBuses(regions[i]) ==> End(regions[i]) <= 0x1_0000_0000_0000_0000)
    && (forall i, j ::
          (0 <= i < |regions| && 0 <= j < |regions| && i != j && HasBuses(regions[i]) && HasBuses(regions[j])) ==>
          (End(regions[i]) <= regions[j].baseAddress || End(regions[j]) <= regions[i].baseAddress))
  }

  /** Each function's window lies inside the memory of the region that handles it. */
  lemma WindowInRegion(regions: seq<Region>, f: Function)
    requires AreDisjoint(regions) && f.device < 32 && f.number < 8 && Find(regions, f).Some?
    ensures var r := regions[Find(regions, f).value];
            var a := PhysicalAddress(regions, f);
            && a.Some? && a.value as nat == r.baseAddress as nat + Offset(r, f)
            && Offset(r, f) + WINDOW <= Size(r)
  {
    hide BitOr;
    var r := regions[Find(regions, f).value];
    OffsetIsSum(r, f);
    var bus: nat := f.bus - r.busStart;
    var buses: nat := r.busEnd - r.busStart + 1;
    assert (bus + 1) * MIB <= buses * MIB;
  }

  /** Distinct functions that are handled at all get windows that do not meet; so no two share an address. */
  lemma WindowsAreDisjoint(regions: seq<Region>, f: Function, g: Function)
    requires AreDisjoint(regions) && f != g
    requires f.device < 32 && f.number < 8 && g.device < 32 && g.number < 8
    requires PhysicalAddress(regions, f).Some? && PhysicalAddress(regions, g).Some?
    ensures var a, b := PhysicalAddress(regions, f).value as nat, PhysicalAddress(regions, g).value as nat;
            a + WINDOW <= b || b + WINDOW <= a
  {
    hide BitOr, Find;
    WindowInRegion(regions, f);
    WindowInRegion(regions, g);
    var i, j := Find(regions, f).value, Find(regions, g).value;
    if i == j {
      OffsetIsSum(regions[i], f);
      OffsetIsSum(regions[i], g);
      SumsDiffer(f.bus - regions[i].busStart, f.device, f.number, g.bus - regions[i].busStart, g.device, g.number);
    }
  }

  lemma SumsDiffer(b: nat, d: nat, n: nat, b': nat, d': nat, n': nat)
    requires d < 32 && n < 8 && d' < 32 && n' < 8
    requires b != b' || d != d' || n != n'
    ensures var x, y := b * MIB + d * 0x8000 + n * WINDOW, b' * MIB + d' * 0x8000 + n' * WINDOW;
            x + WINDOW <= y || y + WINDOW <= x
  {
    var u, v := b * 256 + d * 8 + n, b' * 256 + d' * 8 + n';
    assert u != v;
  }

  // ---- Outside the bounds ----

  predicate InRange(f: Function) { f.device < 32 && f.number < 8 }

  function LowBit(a: nat, b: nat): nat { if a % 2 == 1 || b % 2 == 1 then 1 else 0 }

  lemma OrValue(a: nat, b: nat)
    ensures BitOr(a, b) == LowBit(a, b) + 2 * BitOr(a / 2, b / 2)
  {
    if a == 0 {
      assert BitOr(0, b / 2) == b / 2 && LowBit(0, b) == b % 2;
    } else if b == 0 {
      assert BitOr(a / 2, 0) == a / 2 && LowBit(a, 0) == a % 2;
    }
  }

  lemma OrStep(a: nat, b: nat)
    ensures BitOr(a, b) == LowBit(a, b) + 2 * BitOr(a / 2, b / 2)
    ensures BitOr(a, b) % 2 == LowBit(a, b) && BitOr(a, b) / 2 == BitOr(a / 2, b / 2)
  {
    hide BitOr;
    OrValue(a, b);
  }

  lemma {:induction false} OrIsAssociative(a: nat, b: nat, c: nat)
    ensures BitOr(BitOr(a, b), c) == BitOr(a, BitOr(b, c))
    decreases a + b + c
  {
    if a + b + c > 0 {
      hide BitOr;
      OrStep(a, b);
      OrStep(b, c);
      OrStep(BitOr(a, b), c);
      OrStep(a, BitOr(b, c));
      OrIsAssociative(a / 2, b / 2, c / 2);
    }
  }

  lemma OrDoubles(a: nat, b: nat)
    ensures BitOr(2 * a, 2 * b) == 2 * BitOr(a, b)
  {
    hide BitOr;
    OrStep(2 * a, 2 * b);
  }

  lemma MulTwice(a: nat, p: nat)
    ensures a * (2 * p) == 2 * (a * p)
  {
  }

  lemma {:induction false} OrOfShifted(a: nat, b: nat, q: nat)
    ensures BitOr(a * Pow2(q), b * Pow2(q)) == BitOr(a, b) * Pow2(q)
    decreases q
  {
    hide BitOr;
    if q > 0 {
      var p := Pow2(q - 1);
      OrOfShifted(a, b, q - 1);
      OrDoubles(a * p, b * p);
      MulTwice(a, p);
      MulTwice(b, p);
      MulTwice(BitOr(a, b), p);
    }
  }

  lemma {:induction false} OrFits(a: nat, b: nat, q: nat)
    requires a < Pow2(q) && b < Pow2(q)
    ensures BitOr(a, b) < Pow2(q)
    decreases q
  {
    if q > 0 {
      OrFits(a / 2, b / 2, q - 1);
      OrStep(a, b);
    }
  }

  lemma SmallFits(a: nat, b: nat)
    ensures a < 32 && b < 32 ==> BitOr(a, b) < 32
    ensures a < 256 && b < 256 ==> BitOr(a, b) < 256
  {
    assert Pow2(5) == 32 && Pow2(8) == 256;
    if a < 32 && b < 32 { OrFits(a, b, 5); }
    if a < 256 && b < 256 { OrFits(a, b, 8); }
  }

  /** The bus a function lands on, counted from the start of its region: the device's high bits spill into it. */
  function SpilledBus(r: Region, f: Function): nat
    requires r.busStart <= f.bus
  {
    BitOr((f.bus - r.busStart) as nat, f.device as nat / 32)
  }

  /** The function in range at whose address a function lands, if its bus is still the region's. */
  function Spilled(r: Region, f: Function): (g: Function)
    requires r.busStart <= f.bus && r.busStart as nat + SpilledBus(r, f) <= r.busEnd as nat
    ensures InRange(g) && Handles(r, g) == (r.segmentGroup == f.segment)
  {
    SmallFits(f.device as nat % 32, f.number as nat / 8);
    Function(f.segment, r.busStart + SpilledBus(r, f), BitOr(f.device as nat % 32, f.number as nat / 8), f.number % 8)
  }

  /** The offset regroups into the spilled bus, the low device bits with the function's high ones, and the rest. */
  lemma OffsetSpills(r: Region, f: Function)
    requires r.busStart <= f.bus
    ensures var d := BitOr(f.device as nat % 32, f.number as nat / 8);
            d < 32 && Offset(r, f) == SpilledBus(r, f) * MIB + d * 0x8000 + f.number as nat % 8 * WINDOW
  {
    hide BitOr;
    ShiftPowers();
    var bus: nat, device: nat, number: nat := f.bus - r.busStart, f.device, f.number;
    var high, low, spill, rest := device / 32, device % 32, number / 8, number % 8;
    SmallFits(low, spill);
    OrAdds(high, MIB, low * 0x8000, 20);
    OrAdds(spill, 0x8000, rest * WINDOW, 15);
    assert device * 0x8000 == high * MIB + low * 0x8000 && number * WINDOW == spill * 0x8000 + rest * WINDOW;
    var b, h, l, s, t := bus * MIB, high * MIB, low * 0x8000, spill * 0x8000, rest * WINDOW;
    OrIsAssociative(b, h, l);
    OrIsAssociative(BitOr(b, h), l, BitOr(s, t));
    OrIsAssociative(l, s, t);
    OrOfShifted(bus, high, 20);
    OrOfShifted(low, spill, 15);
    var u, d := BitOr(bus, high), BitOr(low, spill);
    assert Offset(r, f) == BitOr(u * MIB, BitOr(d * 0x8000, t));
    OrAdds(d, 0x8000, t, 15);
    OrAdds(u, MIB, d * 0x8000 + t, 20);
  }

  /** Offsets are far smaller than 2^64, so equal addresses in one region mean equal offsets. */
  lemma SameAddress(r: Region, f: Function, g: Function)
    requires Handles(r, f) && Handles(r, g)
    ensures PhysicalAddress([r], f) == PhysicalAddress([r], g) <==> Offset(r, f) == Offset(r, g)
  {
    hide BitOr;
    assert Find([r], f) == Some(0) && Find([r], g) == Some(0);
    OffsetSpills(r, f);
    OffsetSpills(r, g);
    SmallFits((f.bus - r.busStart) as nat, f.device as nat / 32);
    SmallFits((g.bus - r.busStart) as nat, g.device as nat / 32);
    var x, y, base: nat := Offset(r, f), Offset(r, g), r.baseAddress;
    assert x < 0x1_0000_0000 && y < 0x1_0000_0000;
    CloseMod(base + x, base + y, 0x1_0000_0000_0000_0000);
  }

  predicate SharesAddress(r: Region, f: Function, g: Function) {
    Handles(r, g) && PhysicalAddress([r], g) == PhysicalAddress([r], f)
  }

  lemma CloseMod(a: nat, b: nat, m: nat)
    requires m > 0 && a < b + m && b < a + m
    ensures a % m == b % m <==> a == b
  {
    if a % m == b % m {
      var q, k := a / m, b / m;
      assert a - b == (q - k) * m;
      MulGrows(q - k, m);
    }
  }

  /**
   In one region, a handled function shares its address with another one in range exactly if its device or
   function number is out of range and the bus it spills to is still the region's; the other one is `Spilled`.
   */
  lemma SharesAddressIff(r: Region, f: Function)
    requires Handles(r, f)
    ensures (exists g :: g != f && InRange(g) && SharesAddress(r, f, g)) <==>
            !InRange(f) && r.busStart as nat + SpilledBus(r, f) <= r.busEnd as nat
  {
    hide BitOr, PhysicalAddress, Offset;
    OffsetSpills(r, f);
    if !InRange(f) && r.busStart as nat + SpilledBus(r, f) <= r.busEnd as nat {
      var g := Spilled(r, f);
      OffsetIsSum(r, g);
      SameAddress(r, g, f);
      assert SharesAddress(r, f, g);
    }
    if g :| g != f && InRange(g) && SharesAddress(r, f, g) {
      SameAddress(r, g, f);
      OffsetIsSum(r, g);
      SumsMatch((g.bus - r.busStart) as nat, g.device, g.number,
                SpilledBus(r, f), BitOr(f.device as nat % 32, f.number as nat / 8), f.number as nat % 8);
      if InRange(f) { SameInRange(r, f, g); }
    }
  }

  lemma SumsMatch(b: nat, d: nat, n: nat, b': nat, d': nat, n': nat)
    requires d < 32 && n < 8 && d' < 32 && n' < 8
    requires b * MIB + d * 0x8000 + n * WINDOW == b' * MIB + d' * 0x8000 + n' * WINDOW
    ensures b == b' && d == d' && n == n'
  {
    if b != b' || d != d' || n != n' { SumsDiffer(b, d, n, b', d', n'); }
  }

  lemma SameInRange(r: Region, f: Function, g: Function)
    requires Handles(r, f) && Handles(r, g) && InRange(f) && InRange(g) && Offset(r, f) == Offset(r, g)
    ensures f == g
  {
    hide Offset;
    OffsetIsSum(r, f);
    OffsetIsSum(r, g);
    SumsMatch((f.bus - r.busStart) as nat, f.device, f.number, (g.bus - r.busStart) as nat, g.device, g.number);
  }

  /** A region over all buses has no bus to spill over: there the bounds alone decide. */
  lemma FullRegionSharesIff(r: Region, f: Function)
    requires Handles(r, f) && r.busStart == 0 && r.busEnd == 255
    ensures (exists g :: g != f && InRange(g) && SharesAddress(r, f, g)) <==>
            f.device >= 32 || f.number >= 8
  {
    hide BitOr, PhysicalAddress;
    SharesAddressIff(r, f);
    SmallFits(f.bus as nat, f.device as nat / 32);
  }

  // ---- Outside the bounds, among several regions ----

  /** The address starts a window in the region's memory. */
  predicate LandsIn(r: Region, a: u64) {
    HasBuses(r) && r.baseAddress <= a && a as nat < End(r) && (a - r.baseAddress) % WINDOW == 0
  }

  /** The function in range whose window in the region starts at the address. */
  function At(r: Region, a: u64): (g: Function)
    requires LandsIn(r, a)
    ensures InRange(g) && Handles(r, g)
  {
    var d: nat := a - r.baseAddress;
    BusFits(d, (r.busEnd - r.busStart) as nat);
    Function(r.segmentGroup, r.busStart + d / MIB, d / 0x8000 % 32, d / WINDOW % 8)
  }

  lemma BusFits(d: nat, last: nat)
    requires d < (last + 1) * MIB
    ensures d / MIB <= last
  {
    assert d / MIB * MIB <= d;
  }

  /** A multiple of the window size is made of the bus, device and function it is split into. */
  lemma DistanceIsSum(d: nat)
    requires d % WINDOW == 0
    ensures d == d / MIB * MIB + d / 0x8000 % 32 * 0x8000 + d / WINDOW % 8 * WINDOW
  {
    var n := d / WINDOW;
    assert d == n * WINDOW && d / 0x8000 == n / 8 && d / MIB == n / 8 / 32;
  }

  lemma AtIsThere(regions: seq<Region>, a: u64, k: nat)
    requires AreDisjoint(regions) && k < |regions| && LandsIn(regions[k], a)
    requires Find(regions, At(regions[k], a)) == Some(k)
    ensures PhysicalAddress(regions, At(regions[k], a)) == Some(a)
  {
    hide BitOr, Find;
    var r, g := regions[k], At(regions[k], a);
    WindowInRegion(regions, g);
    OffsetIsSum(r, g);
    DistanceIsSum((a - r.baseAddress) as nat);
  }

  lemma AtIsUnique(regions: seq<Region>, g: Function, k: nat)
    requires AreDisjoint(regions) && InRange(g) && Find(regions, g) == Some(k)
    ensures PhysicalAddress(regions, g).Some?
    ensures var a := PhysicalAddress(regions, g).value; LandsIn(regions[k], a) && At(regions[k], a) == g
  {
    hide BitOr, Find;
    var r := regions[k];
    WindowInRegion(regions, g);
    OffsetIsSum(r, g);
    var a := PhysicalAddress(regions, g).value;
    var b: nat := g.bus - r.busStart;
    var n := b * 256 + g.device as nat * 8 + g.number as nat;
    assert (a - r.baseAddress) as nat == n * WINDOW;
    var h := At(r, a);
    DistanceIsSum(n * WINDOW);
    SumsMatch((h.bus - r.busStart) as nat, h.device, h.number, b, g.device, g.number);
  }

  /** A window at the address is that of the function the region's split of the address gives. */
  predicate IsTaken(regions: seq<Region>, a: u64, k: int) {
    0 <= k < |regions| && LandsIn(regions[k], a) && Find(regions, At(regions[k], a)) == Some(k)
  }

  predicate OtherAt(regions: seq<Region>, f: Function, g: Function) {
    g != f && InRange(g) && PhysicalAddress(regions, g) == PhysicalAddress(regions, f)
  }

  /**
   Among regions whose memory does not meet, a handled function shares its address with another one in range
   exactly if its device or function number is out of range and its address starts a window, in the memory of
   whatever region, whose own function that region is the first to handle.
   */
  lemma SharesAmongRegionsIff(regions: seq<Region>, f: Function)
    requires AreDisjoint(regions) && PhysicalAddress(regions, f).Some?
    ensures (exists g :: OtherAt(regions, f, g)) <==>
            !InRange(f) && exists k :: IsTaken(regions, PhysicalAddress(regions, f).value, k)
  {
    hide BitOr, Find, LandsIn, At, PhysicalAddress;
    var a := PhysicalAddress(regions, f).value;
    if g :| OtherAt(regions, f, g) {
      FoundIfAddressed(regions, g);
      AtIsUnique(regions, g, Find(regions, g).value);
      assert IsTaken(regions, a, Find(regions, g).value);
      if InRange(f) { WindowsAreDisjoint(regions, f, g); }
    }
    if k :| !InRange(f) && IsTaken(regions, a, k) {
      AtIsThere(regions, a, k);
      assert InRange(At(regions[k], a)) && OtherAt(regions, f, At(regions[k], a));
    }
  }

  lemma FoundIfAddressed(regions: seq<Region>, g: Function)
    ensures PhysicalAddress(regions, g).Some? <==> Find(regions, g).Some?
  {
    hide Find, Offset;
  }

  /** No segment and bus belongs to two regions, as the code takes for granted. */
  ghost predicate OneEach(regions: seq<Region>) {
    forall i, j :: 0 <= i < |regions| && 0 <= j < |regions| && i != j ==>
      forall f :: !(Handles(regions[i], f) && Handles(regions[j], f))
  }

  /** Then it is enough that the address starts a window in some region's memory. */
  lemma SharesAmongDistinctIff(regions: seq<Region>, f: Function)
    requires AreDisjoint(regions) && OneEach(regions) && PhysicalAddress(regions, f).Some?
    ensures (exists g :: OtherAt(regions, f, g)) <==>
            !InRange(f) && exists k :: 0 <= k < |regions| && LandsIn(regions[k], PhysicalAddress(regions, f).value)
  {
    hide BitOr, Find, LandsIn, At, PhysicalAddress;
    var a := PhysicalAddress(regions, f).value;
    SharesAmongRegionsIff(regions, f);
    forall k | 0 <= k < |regions| && LandsIn(regions[k], a) ensures IsTaken(regions, a, k) {
      assert Handles(regions[k], At(regions[k], a));
    }
  }

  /** A device that spills past its own region may land in the next one. */
  lemma SpillsIntoTheNextRegion()
    ensures var regions := [Region(0, 0, 0, 0), Region(MIB, 1, 0, 0)];
            && AreDisjoint(regions) && OneEach(regions)
            && PhysicalAddress(regions, Function(0, 0, 32, 0)) == Some(MIB)
            && PhysicalAddress(regions, Function(1, 0, 0, 0)) == Some(MIB)
  {
    var regions := [Region(0, 0, 0, 0), Region(MIB, 1, 0, 0)];
    var f, g := Function(0, 0, 32, 0), Function(1, 0, 0, 0);
    assert Handles(regions[0], f) && !Handles(regions[0], g) && regions[1..] == [regions[1]] && Handles(regions[1], g);
    assert BitOr(0, MIB) == MIB && BitOr(MIB, 0) == MIB && BitOr(0, 0) == 0;
  }
}
