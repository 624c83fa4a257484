/** The namespace as the object the interpreter holds and updates in place (aml/src/namespace.rs:55-312). */
module NamespaceObject {
  import opened Types
  import opened Names
  import opened Levels
  import opened Namespaces

  class Namespace<V> {
    var nextHandle: u32
    var objects: map<u32, V>
    var root: Level

    ghost function State(): Space<V>
      reads this
    {
      Space(nextHandle, objects, root)
    }

    constructor ()
      ensures State() == EmptySpace()
      ensures HandlesExact(State())
    {
      nextHandle, objects, root := 0, map[], NewLevel(ScopeLevel);
      new;
      EmptySpaceIsExact<V>();
    }

    /** A relative name, or one that cannot be walked, panics. */
    method AddLevel(path: AmlName, typ: LevelType) returns (r: Result<()>)
      requires IsAbsolute(path) && (IsRooted(path) || CanReach(root, path))
      modifies this`root
      ensures IsRooted(path) ==> (State(), r) == Namespaces.AddLevel(old(State()), path, typ)
      ensures !IsRooted(path) ==> State() == old(State()) && r == Err(OddNameError(old(root), path))
    {
      NameCases(root, path);
      var norm := Normalize(path);
      if norm.Err? { return Err(norm.error); }
      r := Ok(());
      if norm.value != ROOT_NAME {
        var found := GetLevelForPath(root, norm.value);
        if found.Err? { return Err(found.error); }
        var (level, lastSeg) := found.value;
        if lastSeg !in level.children {
          var child := level.(children := level.children[lastSeg := NewLevel(typ)]);
          root := ReplaceAt(root, Init(SegsOf(norm.value)), child);
        }
      }
    }

    method RemoveLevel(path: AmlName) returns (r: Result<()>)
      requires IsAbsolute(path) && (IsRooted(path) || CanReach(root, path))
      modifies this`root
      ensures IsRooted(path) ==> (State(), r) == Namespaces.RemoveLevel(old(State()), path)
      ensures !IsRooted(path) ==> State() == old(State()) && r == Err(OddNameError(old(root), path))
    {
      NameCases(root, path);
      var norm := Normalize(path);
      if norm.Err? { return Err(norm.error); }
      if norm.value == ROOT_NAME { return Err(TriedToRemoveRootNamespace); }
      var found := GetLevelForPath(root, norm.value);
      if found.Err? { return Err(found.error); }
      var (level, lastSeg) := found.value;
      if lastSeg !in level.children {
        PathOfSegs(norm.value);
        return Err(LevelDoesNotExist(norm.value));
      }
      root := ReplaceAt(root, Init(SegsOf(norm.value)), level.(children := level.children - {lastSeg}));
      r := Ok(());
    }

    method AddValue(path: AmlName, value: V) returns (r: Result<u32>)
      requires IsAbsolute(path) && CanReach(root, path)
      modifies this
      ensures IsRooted(path) ==>
                Normalize(path) != Ok(ROOT_NAME) && (State(), r) == Namespaces.AddValue(old(State()), path, value)
      ensures !IsRooted(path) ==>
                && r == Err(OddNameError(old(root), path))
                && State() == if Normalize(path).Ok? then Taken(old(State()), value) else old(State())
    {
      NameCases(root, path);
      var norm := Normalize(path);
      if norm.Err? { return Err(norm.error); }
      var handle := nextHandle;
      nextHandle := (nextHandle + 1) % HANDLE_COUNT;
      objects := objects[handle := value];
      var found := GetLevelForPath(root, norm.value);
      if found.Err? { return Err(found.error); }
      var (level, lastSeg) := found.value;
      root := ReplaceAt(root, Init(SegsOf(norm.value)), level.(values := level.values[lastSeg := handle]));
      if lastSeg in level.values {
        PathOfSegs(norm.value);
        return Err(NameCollision(norm.value));
      }
      r := Ok(handle);
    }

    /** The path is taken as it is: nothing checks that it is absolute. */
    method GetHandle(path: AmlName) returns (r: Result<u32>)
      requires CanWalk(root, path)
      ensures r == match WalkName(root, path)
                   case Err(e) => Err(e)
                   case Ok((l, seg)) => if seg in l.values then Ok(l.values[seg]) else Err(ValueDoesNotExist(path))
      ensures IsPath(path) ==> r == Namespaces.GetHandle(State(), path)
    {
      if IsPath(path) {
        PathWalks(root, path);
        PathOfSegs(path);
      }
      var found := GetLevelForPath(root, path);
      if found.Err? { return Err(found.error); }
      var (level, lastSeg) := found.value;
      if lastSeg !in level.values { return Err(ValueDoesNotExist(path)); }
      r := Ok(level.values[lastSeg]);
    }

    /**
     `search` for a name of one segment. The loop climbs from the starting scope; a level that does not
     exist is passed over like one that does not hold the name.
     */
    method SearchByRules(path: AmlName, startingScope: AmlName) returns (r: Result<(AmlName, u32)>)
      requires SearchRulesApply(path) && IsAbsolute(startingScope) && CanSearch(root, path, startingScope)
      ensures r == SearchFrom(root, path, startingScope)
    {
      var seg := path[0].seg;
      assert path == [Segment(seg)];
      ghost var start := Normalize(startingScope);
      var scope := startingScope;
      while true
        invariant IsAbsolute(scope) && (Normalize(scope).Err? ==> scope == startingScope)
        invariant Normalize(scope).Ok? ==>
                    var n := Normalize(scope).value;
                    && start.Ok? && CanWalk(root, n + path) && (IsPath(n) <==> IsPath(start.value))
                    && (IsPath(n) ==>
                         SearchUp(root, SegsOf(start.value), seg) == SearchUp(root, SegsOf(n), seg))
        decreases |scope|
      {
        var name := Resolve(path, scope);
        ResolveSegment(scope, seg);
        if name.Err? { return Err(name.error); }
        ghost var n := Normalize(scope).value;
        var found := GetLevelForPath(root, name.value);
        SearchStep(root, n, seg);
        if found.Ok? {
          var (level, lastSeg) := found.value;
          if lastSeg in level.values { return Ok((name.value, level.values[lastSeg])); }
        }
        var parent := Parent(scope);
        ParentOfScope(root, scope, seg);
        if parent.Err? { return Err(ValueDoesNotExist(path)); }
        scope := parent.value;
      }
    }

    method Search(path: AmlName, startingScope: AmlName) returns (r: Result<(AmlName, u32)>)
      requires IsAbsolute(startingScope) && CanSearch(root, path, startingScope)
      ensures r == SearchFrom(root, path, startingScope)
      ensures IsPath(startingScope) && IsSearchable(path, startingScope) ==>
                r == Namespaces.Search(State(), path, startingScope)
    {
      SearchAgrees(State(), path, startingScope);
      if SearchRulesApply(path) {
        r := SearchByRules(path, startingScope);
      } else {
        var name := Resolve(path, startingScope);
        if name.Err? { return Err(name.error); }
        var found := GetLevelForPath(root, name.value);
        if found.Err? { return Err(found.error); }
        var (level, lastSeg) := found.value;
        if lastSeg !in level.values { return Err(ValueDoesNotExist(path)); }
        r := Ok((name.value, level.values[lastSeg]));
      }
    }
  }

  // ---- Names with a root inside ----

  /** Normalising the name fails, or walking the result does not panic. */
  predicate CanReach(root: Level, path: AmlName) { Normalize(path).Ok? ==> CanWalk(root, Normalize(path).value) }

  /** Why a name with a root inside is refused: it cannot be normalised, or a level before that root is missing. */
  function OddNameError(root: Level, path: AmlName): AmlError
    requires IsAbsolute(path) && !IsRooted(path) && CanReach(root, path)
  {
    match Normalize(path)
    case Err(e) => e
    case Ok(n) => OddWalkFails(root, path); WalkName(root, n).error
  }

  lemma OddWalkFails(root: Level, path: AmlName)
    requires IsAbsolute(path) && !IsRooted(path) && CanReach(root, path) && Normalize(path).Ok?
    ensures !IsPath(Normalize(path).value) && WalkName(root, Normalize(path).value).Err?
  {
    InnerRootStays(path);
    NotAPath(root, Normalize(path).value);
  }

  lemma NotAPath(root: Level, n: AmlName)
    requires IsAbsolute(n) && Root in n[1..]
    ensures !IsPath(n) && n != ROOT_NAME
    ensures CanWalk(root, n) ==> WalkName(root, n).Err?
  {
    var k :| 0 <= k < |n[1..]| && n[1..][k] == Root;
    assert !n[k + 1].Segment?;
    if CanWalk(root, n) { OddNameFails(root, n, k + 1); }
  }

  /** An absolute name with one root normalises to a path and is walked as one; any other is refused. */
  lemma NameCases(root: Level, path: AmlName)
    requires IsAbsolute(path)
    ensures Normalize(path).Ok? ==>
              var n := Normalize(path).value;
              && (IsPath(n) <==> IsRooted(path)) && (IsPath(n) && n != ROOT_NAME ==> CanWalk(root, n))
              && (IsPath(n) && n != ROOT_NAME ==>
                   var p := SegsOf(n);
                   WalkName(root, n) == match Walk(root, Init(p)) case Ok(l) => Ok((l, Last(p))) case Err(e) => Err(e))
              && (!IsPath(n) && CanWalk(root, n) ==> WalkName(root, n).Err?)
  {
    if Normalize(path).Ok? {
      var n := Normalize(path).value;
      if IsRooted(path) {
        NormalizeGivesPath(path);
        if n != ROOT_NAME { PathWalks(root, n); }
      } else {
        InnerRootStays(path);
        NotAPath(root, n);
      }
    }
  }

  // ---- Searching from any absolute scope ----

  /** No name the search comes to makes the walk panic. */
  predicate CanSearch(root: Level, path: AmlName, scope: AmlName)
    requires IsAbsolute(scope)
  {
    if SearchRulesApply(path) then Normalize(scope).Ok? ==> CanWalk(root, Normalize(scope).value + path)
    else Resolve(path, scope).Ok? ==> CanWalk(root, Resolve(path, scope).value)
  }

  /** A scope with a root inside holds nothing: every level on the way up is missing. */
  function SearchFrom(root: Level, path: AmlName, scope: AmlName): (r: Result<(AmlName, u32)>)
    requires IsAbsolute(scope) && CanSearch(root, path, scope)
  {
    if SearchRulesApply(path) then
      match Normalize(scope)
      case Err(_) => Err(InvalidNormalizedName(scope + path))
      case Ok(n) => if IsPath(n) then SearchUp(root, SegsOf(n), path[0].seg) else Err(ValueDoesNotExist(path))
    else
      match Resolve(path, scope)
      case Err(e) => Err(e)
      case Ok(name) =>
        match WalkName(root, name)
        case Err(e) => Err(e)
        case Ok((l, seg)) => if seg in l.values then Ok((name, l.values[seg])) else Err(ValueDoesNotExist(path))
  }

  /** The search of one segment, by the declarative rule: the nearest prefix of the scope that holds it. */
  lemma SearchFromIsNearest(root: Level, path: AmlName, scope: AmlName)
    requires SearchRulesApply(path) && IsAbsolute(scope) && CanSearch(root, path, scope)
    requires Normalize(scope).Ok? && IsPath(Normalize(scope).value)
    ensures var q, seg, r := SegsOf(Normalize(scope).value), path[0].seg, SearchFrom(root, path, scope);
            && (forall k :: IsNearest(root, q, seg, k) ==>
                 r == Ok((PathOf(q[..k] + [seg]), Lookup(root, q[..k] + [seg]).value)))
            && (r == Err(ValueDoesNotExist(path)) <==> HeldNowhere(root, q, seg))
            && (r.Ok? <==> exists k :: IsNearest(root, q, seg, k))
  {
    hide CanWalk, Lookup, SearchUp, SegsOf, PathOf;
    assert path == [Segment(path[0].seg)];
    SearchFindsNearest(root, SegsOf(Normalize(scope).value), path[0].seg);
  }

  /** On paths this is the search the interpreter uses. */
  lemma SearchAgrees<V>(ns: Space<V>, path: AmlName, scope: AmlName)
    ensures IsPath(scope) && IsSearchable(path, scope) ==>
              CanSearch(ns.root, path, scope) && SearchFrom(ns.root, path, scope) == Search(ns, path, scope)
  {
    if IsPath(scope) && IsSearchable(path, scope) {
      if SearchRulesApply(path) {
        PathIsNormal(scope);
        ParentInvertsChild(scope, path[0].seg);
        assert path == [Segment(path[0].seg)];
        PathWalks(ns.root, scope + path);
      } else if Resolve(path, scope).Ok? {
        PathWalks(ns.root, Resolve(path, scope).value);
      }
    }
  }

  /** What one turn of the search loop sees. */
  lemma SearchStep(root: Level, n: AmlName, seg: NameSeg)
    requires IsAbsolute(n) && IsNormal(n) && CanWalk(root, n + [Segment(seg)])
    ensures var w := WalkName(root, n + [Segment(seg)]);
            && (!IsPath(n) ==> w.Err?)
            && (w.Ok? ==> w.value.1 == seg)
            && (IsPath(n) ==>
                 && n + [Segment(seg)] == PathOf(SegsOf(n) + [seg])
                 && Lookup(root, SegsOf(n) + [seg]) ==
                    if w.Ok? && seg in w.value.0.values then Some(w.value.0.values[seg]) else None)
  {
    var name := n + [Segment(seg)];
    assert name[1..] == n[1..] + [Segment(seg)];
    if IsPath(n) {
      hide NodeAt, CanWalk, WalkName;
      ChildPath(n, seg);
      PathWalks(root, name);
      var p := SegsOf(n) + [seg];
      assert Init(p) == SegsOf(n) && Last(p) == seg;
    } else {
      var k :| 0 <= k < |n[1..]| && !n[1..][k].Segment?;
      assert !name[k + 1].Segment?;
      OddNameFails(root, name, k + 1);
    }
  }

  lemma ChildPath(n: AmlName, seg: NameSeg)
    requires IsPath(n)
    ensures var name := n + [Segment(seg)];
            IsPath(name) && name != ROOT_NAME && name == PathOf(SegsOf(n) + [seg]) && SegsOf(name) == SegsOf(n) + [seg]
  {
    ParentInvertsChild(n, seg);
    PathOfSegs(n);
    assert PathOf(SegsOf(n) + [seg]) == PathOf(SegsOf(n)) + [Segment(seg)];
    assert |n + [Segment(seg)]| > 1;
  }

  /** A segment resolves, if at all, to the child of the normalised scope. */
  lemma ResolveSegment(scope: AmlName, seg: NameSeg)
    requires IsAbsolute(scope)
    ensures match Normalize(scope)
            case Err(_) => Resolve([Segment(seg)], scope) == Err(InvalidNormalizedName(scope + [Segment(seg)]))
            case Ok(n) => IsAbsolute(n) && IsNormal(n) && Resolve([Segment(seg)], scope) == Ok(n + [Segment(seg)])
  {
    var s := [Segment(seg)];
    if Normalize(scope).Err? {
      FailingPrefixFails(scope, s);
    } else {
      NormalizeIsHomomorphism(scope, s);
      NormalizeIsPrefixFree(scope);
      ResolveIsAbsolute([], scope);
      assert scope + [] == scope;
    }
  }

  /** The parent of a scope is one component shorter; a scope that ends in a root has none. */
  lemma ParentOfScope(root: Level, scope: AmlName, seg: NameSeg)
    requires IsAbsolute(scope) && Normalize(scope).Ok?
    requires CanWalk(root, Normalize(scope).value + [Segment(seg)])
    ensures var n := Normalize(scope).value;
            && IsAbsolute(n)
            && (Parent(scope).Err? <==> n[|n| - 1] == Root)
            && (Parent(scope).Err? ==> Parent(scope).error == RootHasNoParent)
            && (Parent(scope).Ok? ==>
                 var m := Parent(scope).value;
                 && m == n[..|n| - 1] && IsAbsolute(m) && Normalize(m) == Ok(m) && |m| < |scope|
                 && (IsPath(m) <==> IsPath(n)) && (IsPath(n) ==> SegsOf(m) == Init(SegsOf(n)))
                 && CanWalk(root, m + [Segment(seg)]))
  {
    hide CanWalk, NodeAt, FoldName;
    ResolveSegment(scope, seg);
    NormalizeShrinks(scope);
    var n := Normalize(scope).value;
    if n[|n| - 1] != Root { FrontOfScope(root, n, seg); }
  }

  lemma FrontOfScope(root: Level, n: AmlName, seg: NameSeg)
    requires IsAbsolute(n) && IsNormal(n) && n[|n| - 1] != Root && CanWalk(root, n + [Segment(seg)])
    ensures var m := n[..|n| - 1];
            && IsAbsolute(m) && IsNormal(m) && CanWalk(root, m + [Segment(seg)])
            && (IsPath(m) <==> IsPath(n)) && (IsPath(n) ==> SegsOf(m) == Init(SegsOf(n)))
  {
    FrontIsPath(n);
    FrontWalks(root, n, seg);
  }

  lemma FrontIsPath(n: AmlName)
    requires IsAbsolute(n) && IsNormal(n) && n[|n| - 1] != Root
    ensures var m := n[..|n| - 1];
            && IsAbsolute(m) && IsNormal(m) && n[|n| - 1].Segment?
            && (IsPath(m) <==> IsPath(n)) && (IsPath(n) ==> SegsOf(m) == Init(SegsOf(n)))
  {
    var m, last := n[..|n| - 1], n[|n| - 1];
    assert last in n && n[1..] == m[1..] + [last];
  }

  lemma FrontWalks(root: Level, n: AmlName, seg: NameSeg)
    requires |n| > 1 && n[|n| - 1].Segment? && CanWalk(root, n + [Segment(seg)])
    ensures CanWalk(root, n[..|n| - 1] + [Segment(seg)])
  {
    hide NodeAt, LeadingSegs;
    var m, s, last := n[..|n| - 1], [Segment(seg)], n[|n| - 1];
    assert Between(n + s) == n[1..] == m[1..] + [last] && Between(m + s) == m[1..];
    LeadingSegsOfFront(m[1..], last);
  }

  lemma {:induction false} LeadingSegsOfFront(comps: AmlName, last: NameComponent)
    ensures var p, q := LeadingSegs(comps), LeadingSegs(comps + [last]);
            if |p| < |comps| then q == p else q == p + if last.Segment? then [last.seg] else []
    decreases |comps|
  {
    if comps == [] {
      assert [last][1..] == [];
    } else if comps[0].Segment? {
      assert (comps + [last])[1..] == comps[1..] + [last];
      LeadingSegsOfFront(comps[1..], last);
    }
  }
}
