/** The tree of namespace levels and what walking, replacing and reading at a path mean. */
module Levels {
  import opened Types

  datatype LevelType = ScopeLevel | DeviceLevel | ProcessorLevel | PowerResourceLevel | ThermalZoneLevel | MethodLocals

  datatype Level = Level(typ: LevelType, children: map<NameSeg, Level>, values: map<NameSeg, u32>)

  function NewLevel(typ: LevelType): Level { Level(typ, map[], map[]) }

  // ---- Paths as segment lists ----

  type Segs = seq<NameSeg>

  function SegsOf(name: AmlName): (p: Segs)
    requires IsPath(name)
    ensures |p| == |name| - 1
  {
    seq(|name| - 1, i requires 0 <= i < |name| - 1 => assert name[1..][i].Segment?; name[i + 1].seg)
  }

  function PathOf(p: Segs): (name: AmlName)
    ensures IsPath(name) && |name| == |p| + 1 && SegsOf(name) == p
  {
    var name := [Root] + seq(|p|, i requires 0 <= i < |p| => Segment(p[i]));
    assert forall i :: 0 <= i < |p| ==> name[i + 1] == Segment(p[i]);
    assert SegsOf(name) == p;
    name
  }

  lemma PathOfSegs(name: AmlName)
    requires IsPath(name)
    ensures PathOf(SegsOf(name)) == name
  {
    var n := PathOf(SegsOf(name));
    forall i | 0 <= i < |name| ensures n[i] == name[i] {
      if i > 0 {
        assert name[1..][i - 1].Segment? && n[1..][i - 1].Segment?;
        assert SegsOf(n)[i - 1] == SegsOf(name)[i - 1];
      }
    }
  }

  function Init(p: Segs): Segs requires p != [] { p[..|p| - 1] }

  function Last(p: Segs): NameSeg requires p != [] { p[|p| - 1] }

  // ---- Reading the tree ----

  /** What one level holds, apart from its sub-levels. */
  datatype Node = Node(typ: LevelType, values: map<NameSeg, u32>)

  function NodeAt(root: Level, p: Segs): Option<Node>
    decreases |p|
  {
    if p == [] then Some(Node(root.typ, root.values))
    else if p[0] in root.children then NodeAt(root.children[p[0]], p[1..])
    else None
  }

  predicate HasLevel(root: Level, p: Segs) { NodeAt(root, p).Some? }

  function LevelAt(root: Level, p: Segs): (l: Level)
    requires HasLevel(root, p)
    ensures NodeAt(root, p) == Some(Node(l.typ, l.values))
    decreases |p|
  {
    if p == [] then root else LevelAt(root.children[p[0]], p[1..])
  }

  /** The handle at a value path: a level and, inside it, a value's segment. */
  function Lookup(root: Level, p: Segs): Option<u32> {
    if p == [] || !HasLevel(root, Init(p)) then None
    else
      var values := NodeAt(root, Init(p)).value.values;
      if Last(p) in values then Some(values[Last(p)]) else None
  }

  lemma {:induction false} NodeBelow(root: Level, p: Segs, q: Segs)
    requires HasLevel(root, p)
    ensures NodeAt(root, p + q) == NodeAt(LevelAt(root, p), q)
    decreases |p|
  {
    if p == [] {
      assert p + q == q;
    } else {
      assert (p + q)[1..] == p[1..] + q;
      NodeBelow(root.children[p[0]], p[1..], q);
    }
  }

  /** Levels are prefix-closed. */
  lemma {:induction false} LevelsArePrefixClosed(root: Level, p: Segs, k: nat)
    requires HasLevel(root, p) && k <= |p|
    ensures HasLevel(root, p[..k])
    decreases |p|
  {
    if k > 0 {
      assert p[..k][1..] == p[1..][..k - 1];
      LevelsArePrefixClosed(root.children[p[0]], p[1..], k - 1);
    }
  }

  lemma ChildIsLevel(root: Level, p: Segs)
    requires p != [] && HasLevel(root, Init(p))
    ensures HasLevel(root, p) <==> Last(p) in LevelAt(root, Init(p)).children
    ensures HasLevel(root, p) ==>
              var c := LevelAt(root, Init(p)).children[Last(p)]; NodeAt(root, p) == Some(Node(c.typ, c.values))
  {
    assert p == Init(p) + [Last(p)];
    NodeBelow(root, Init(p), [Last(p)]);
    assert [Last(p)][1..] == [];
  }

  // ---- Walking down to a level ----

  /** The first level missing on the way down, if any. */
  function FirstMissing(root: Level, p: Segs): (k: Option<nat>)
    ensures k.None? <==> HasLevel(root, p)
    ensures k.Some? ==> k.value < |p| && HasLevel(root, p[..k.value]) && !HasLevel(root, p[..k.value + 1])
    decreases |p|
  {
    if p == [] then None
    else if p[0] !in root.children then
      assert p[..1][0] == p[0];
      Some(0)
    else
      match FirstMissing(root.children[p[0]], p[1..])
      case None => None
      case Some(k) =>
        assert p[..k + 1][1..] == p[1..][..k] && p[..k + 2][1..] == p[1..][..k + 1];
        Some(k + 1)
  }

  function Walk(root: Level, p: Segs): (r: Result<Level>)
    ensures r.Ok? <==> HasLevel(root, p)
    ensures r.Ok? ==> r.value == LevelAt(root, p)
  {
    match FirstMissing(root, p)
    case None => Ok(LevelAt(root, p))
    case Some(k) => Err(LevelDoesNotExist(PathOf(p[..k + 1])))
  }

  lemma FirstMissingIs(root: Level, p: Segs, k: nat)
    requires k < |p| && HasLevel(root, p[..k]) && !HasLevel(root, p[..k + 1])
    ensures FirstMissing(root, p) == Some(k)
  {
    if HasLevel(root, p) {
      LevelsArePrefixClosed(root, p, k + 1);
    } else {
      var f := FirstMissing(root, p).value;
      if f < k {
        assert p[..k][..f + 1] == p[..f + 1];
        LevelsArePrefixClosed(root, p[..k], f + 1);
      } else if k < f {
        assert p[..f][..k + 1] == p[..k + 1];
        LevelsArePrefixClosed(root, p[..f], k + 1);
      }
    }
  }

  // ---- Walking by name ----

  /** The segments before the first component that is not one. */
  function LeadingSegs(comps: AmlName): (p: Segs)
    ensures |p| <= |comps| && (forall i :: 0 <= i < |p| ==> comps[i] == Segment(p[i]))
    ensures |p| < |comps| ==> !comps[|p|].Segment?
    decreases |comps|
  {
    if comps == [] || !comps[0].Segment? then [] else [comps[0].seg] + LeadingSegs(comps[1..])
  }

  /** The components a walk goes through: all but the first, which is never looked at, and the last. */
  function Between(path: AmlName): AmlName
    requires |path| >= 2
  {
    path[1..|path| - 1]
  }

  /**
   When walking a name does not panic: there is a last component, it is a segment, and so is every other one
   that is reached before a level is missing.
   */
  predicate CanWalk(root: Level, path: AmlName) {
    && |path| >= 2 && path[|path| - 1].Segment?
    && var p := LeadingSegs(Between(path)); |p| == |Between(path)| || !HasLevel(root, p)
  }

  function WalkName(root: Level, path: AmlName): (r: Result<(Level, NameSeg)>)
    requires CanWalk(root, path)
  {
    match Walk(root, LeadingSegs(Between(path)))
    case Ok(l) => Ok((l, path[|path| - 1].seg))
    case Err(e) => Err(e)
  }

  /** A path other than the root can be walked, to the level above its last segment. */
  lemma PathWalks(root: Level, path: AmlName)
    requires IsPath(path) && path != ROOT_NAME
    ensures CanWalk(root, path)
    ensures var p := SegsOf(path);
            && LeadingSegs(Between(path)) == Init(p) && path[|path| - 1].seg == Last(p)
            && WalkName(root, path) == match Walk(root, Init(p)) case Ok(l) => Ok((l, Last(p))) case Err(e) => Err(e)
  {
    hide NodeAt;
    forall i | 0 <= i < |path| - 1 ensures path[i + 1] == Segment(SegsOf(path)[i]) { assert path[1..][i].Segment?; }
    assert |path| == 1 ==> path == ROOT_NAME;
    assert forall i :: 0 <= i < |path| - 2 ==> Between(path)[i] == path[i + 1];
  }

  /** The first component is never looked at: a relative name is walked from the root without it. */
  lemma FirstComponentIsIgnored(root: Level, path: AmlName, first: NameComponent)
    requires CanWalk(root, path)
    ensures var other := [first] + path[1..]; CanWalk(root, other) && WalkName(root, other) == WalkName(root, path)
  {
    var other := [first] + path[1..];
    assert other[1..] == path[1..] && |other| == |path|;
    assert Between(other) == other[1..][..|path| - 2] && Between(path) == path[1..][..|path| - 2];
  }

  /** A name that is walked past a component that is not a segment ends at a level missing before it. */
  lemma OddNameFails(root: Level, path: AmlName, k: nat)
    requires CanWalk(root, path) && 0 < k < |path| && !path[k].Segment?
    ensures WalkName(root, path).Err?
  {
    assert k < |path| - 1 && Between(path)[k - 1] == path[k];
  }

  /**
   `get_level_for_path`: walks from the root through all components but the first and the last, and reports
   the part of the path walked so far when a level is missing.
   */
  method GetLevelForPath(root: Level, path: AmlName) returns (r: Result<(Level, NameSeg)>)
    requires CanWalk(root, path)
    ensures r == WalkName(root, path)
  {
    assert HasLevel(root, []) && LevelAt(root, []) == root;
    hide NodeAt, LevelAt;
    var levels, lastSeg := Between(path), path[|path| - 1].seg;
    ghost var p := LeadingSegs(levels);
    var traversed := [];
    var current := root;
    var i := 0;
    while i < |levels|
      invariant 0 <= i <= |p| && traversed == p[..i]
      invariant HasLevel(root, traversed) && current == LevelAt(root, traversed)
    {
      assert p[..|p|] == p;
      traversed := traversed + [levels[i].seg];
      assert Init(traversed) == p[..i] && traversed == p[..i + 1];
      ChildIsLevel(root, traversed);
      if levels[i].seg !in current.children {
        FirstMissingIs(root, p, i);
        return Err(LevelDoesNotExist(PathOf(traversed)));
      }
      LevelAtChild(root, traversed);
      current := current.children[levels[i].seg];
      i := i + 1;
    }
    assert p[..i] == p;
    r := Ok((current, lastSeg));
  }

  lemma {:induction false} LevelAtChild(root: Level, p: Segs)
    requires p != [] && HasLevel(root, p)
    ensures HasLevel(root, Init(p)) && Last(p) in LevelAt(root, Init(p)).children
    ensures LevelAt(root, p) == LevelAt(root, Init(p)).children[Last(p)]
    decreases |p|
  {
    LevelsArePrefixClosed(root, p, |p| - 1);
    if |p| == 1 {
      assert p[1..] == [];
    } else {
      LevelAtChild(root.children[p[0]], p[1..]);
      assert Init(p)[1..] == Init(p[1..]) && Last(p) == Last(p[1..]);
    }
  }

  // ---- Replacing the level at a path ----

  function ReplaceAt(root: Level, p: Segs, level: Level): Level
    requires HasLevel(root, p)
    decreases |p|
  {
    if p == [] then level
    else root.(children := root.children[p[0] := ReplaceAt(root.children[p[0]], p[1..], level)])
  }

  /** A replacement shows at and below its path, and nowhere else. */
  lemma {:induction false} NodeAfterReplace(root: Level, p: Segs, level: Level, q: Segs)
    requires HasLevel(root, p)
    ensures NodeAt(ReplaceAt(root, p, level), q) ==
            if p <= q then NodeAt(level, q[|p|..]) else NodeAt(root, q)
    decreases |p|
  {
    if p == [] {
      assert q[0..] == q;
    } else if q != [] && q[0] == p[0] {
      NodeAfterReplace(root.children[p[0]], p[1..], level, q[1..]);
      assert p <= q <==> p[1..] <= q[1..] by {
        assert p == [p[0]] + p[1..] && q == [q[0]] + q[1..];
      }
      assert p <= q ==> q[|p|..] == q[1..][|p[1..]|..];
    }
  }
}
