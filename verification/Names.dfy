/** Normalisation, parents and resolution of names (aml/src/namespace.rs:443-523). */
module Names {
  import opened Types

  // ---- Normalisation ----

  /** The left fold inside `normalize`: segments and roots are pushed, a prefix pops a segment. */
  function FoldName(acc: AmlName, rest: AmlName): (r: Option<AmlName>)
    decreases |rest|
  {
    if rest == [] then Some(acc)
    else if rest[0] != Prefix then FoldName(acc + [rest[0]], rest[1..])
    else if |acc| > 0 && acc[|acc| - 1].Segment? then FoldName(acc[..|acc| - 1], rest[1..])
    else None
  }

  /** `normalize` returns a normal name as it is, and otherwise folds. */
  function Normalize(name: AmlName): (r: Result<AmlName>) {
    if IsNormal(name) then Ok(name)
    else match FoldName([], name)
      case Some(n) => Ok(n)
      case None => Err(InvalidNormalizedName(name))
  }

  function Parent(name: AmlName): (r: Result<AmlName>) {
    match Normalize(name)
    case Err(e) => Err(e)
    case Ok(n) =>
      if n == [] || n[|n| - 1] == Root then Err(RootHasNoParent) else Ok(n[..|n| - 1])
  }

  function Resolve(name: AmlName, scope: AmlName): (r: Result<AmlName>)
    requires IsAbsolute(scope)
  {
    if IsAbsolute(name) then Ok(name) else Normalize(scope + name)
  }

  predicate SearchRulesApply(name: AmlName) { |name| == 1 && name[0].Segment? }

  // ---- The fold is a homomorphism ----

  lemma {:induction false} FoldOfNormal(acc: AmlName, s: AmlName)
    requires IsNormal(s)
    ensures FoldName(acc, s) == Some(acc + s)
    decreases |s|
  {
    if s == [] {
      assert acc + s == acc;
    } else {
      FoldOfNormal(acc + [s[0]], s[1..]);
      assert acc + [s[0]] + s[1..] == acc + s;
    }
  }

  lemma {:induction false} FoldSplits(acc: AmlName, a: AmlName, b: AmlName)
    ensures FoldName(acc, a + b) ==
            match FoldName(acc, a) case None => None case Some(m) => FoldName(m, b)
    decreases |a|
  {
    if a == [] {
      assert a + b == b;
    } else {
      assert (a + b)[0] == a[0] && (a + b)[1..] == a[1..] + b;
      if a[0] != Prefix {
        FoldSplits(acc + [a[0]], a[1..], b);
      } else if |acc| > 0 && acc[|acc| - 1].Segment? {
        FoldSplits(acc[..|acc| - 1], a[1..], b);
      }
    }
  }

  lemma {:induction false} FoldKeepsNormal(acc: AmlName, s: AmlName)
    requires IsNormal(acc)
    ensures FoldName(acc, s).Some? ==> IsNormal(FoldName(acc, s).value)
    decreases |s|
  {
    if s != [] {
      if s[0] != Prefix {
        FoldKeepsNormal(acc + [s[0]], s[1..]);
      } else if |acc| > 0 && acc[|acc| - 1].Segment? {
        FoldKeepsNormal(acc[..|acc| - 1], s[1..]);
      }
    }
  }

  /** The shortcut for normal names changes nothing: `normalize` always is the fold. */
  lemma NormalizeIsFold(name: AmlName)
    ensures Normalize(name) ==
            match FoldName([], name) case Some(n) => Ok(n) case None => Err(InvalidNormalizedName(name))
  {
    if IsNormal(name) {
      FoldOfNormal([], name);
      assert [] + name == name;
    }
  }

  lemma NormalizeIsPrefixFree(name: AmlName)
    ensures Normalize(name).Ok? ==> IsNormal(Normalize(name).value)
  {
    NormalizeIsFold(name);
    FoldKeepsNormal([], name);
  }

  lemma NormalizeIsIdempotent(name: AmlName)
    requires Normalize(name).Ok?
    ensures Normalize(Normalize(name).value) == Normalize(name)
  {
    NormalizeIsPrefixFree(name);
  }

  /** Two names normalise alike: both fail, or both succeed with the same name. */
  predicate SameOutcome(r1: Result<AmlName>, r2: Result<AmlName>) {
    r1.Ok? == r2.Ok? && (r1.Ok? ==> r1 == r2)
  }

  lemma NormalizeIsHomomorphism(a: AmlName, b: AmlName)
    requires Normalize(a).Ok?
    ensures SameOutcome(Normalize(Normalize(a).value + b), Normalize(a + b))
  {
    var m := Normalize(a).value;
    NormalizeIsFold(a);
    NormalizeIsFold(a + b);
    NormalizeIsFold(m + b);
    FoldSplits([], a, b);
    FoldSplits([], m, b);
    NormalizeIsPrefixFree(a);
    FoldOfNormal([], m);
    assert [] + m == m;
  }

  lemma {:induction false} FoldShrinks(acc: AmlName, s: AmlName)
    ensures FoldName(acc, s).Some? ==> |FoldName(acc, s).value| <= |acc| + |s|
    decreases |s|
  {
    if s != [] {
      if s[0] != Prefix {
        FoldShrinks(acc + [s[0]], s[1..]);
      } else if |acc| > 0 && acc[|acc| - 1].Segment? {
        FoldShrinks(acc[..|acc| - 1], s[1..]);
      }
    }
  }

  lemma NormalizeShrinks(name: AmlName)
    ensures Normalize(name).Ok? ==> |Normalize(name).value| <= |name|
  {
    FoldShrinks([], name);
  }

  lemma FailingPrefixFails(a: AmlName, b: AmlName)
    requires Normalize(a).Err?
    ensures Normalize(a + b).Err?
  {
    NormalizeIsFold(a);
    NormalizeIsFold(a + b);
    FoldSplits([], a, b);
  }

  // ---- What a prefix removes ----

  /** A prefix removes the segment right before it, and nothing else. */
  lemma PrefixPopsLast(a: AmlName, seg: NameSeg, b: AmlName)
    ensures SameOutcome(Normalize(a + [Segment(seg), Prefix] + b), Normalize(a + b))
  {
    NormalizeIsFold(a + [Segment(seg), Prefix] + b);
    NormalizeIsFold(a + b);
    FoldSplits([], a, [Segment(seg), Prefix] + b);
    FoldSplits([], a, b);
    assert a + ([Segment(seg), Prefix] + b) == a + [Segment(seg), Prefix] + b;
    if FoldName([], a).Some? {
      var m := FoldName([], a).value;
      var rest := [Segment(seg), Prefix] + b;
      assert rest[1..] == [Prefix] + b && rest[1..][1..] == b;
      assert (m + [Segment(seg)])[..|m|] == m;
    }
  }

  lemma {:induction false} FoldClimbs(acc: AmlName, k: nat, rest: AmlName)
    requires IsPath(acc) && k < |acc| && AllSegments(rest)
    ensures FoldName(acc, Prefixes(k) + rest) == Some(acc[..|acc| - k] + rest)
    decreases k
  {
    if k == 0 {
      assert Prefixes(0) + rest == rest && acc[..|acc|] == acc;
      FoldOfNormal(acc, rest);
    } else {
      var name := Prefixes(k) + rest;
      assert name[0] == Prefix && name[1..] == Prefixes(k - 1) + rest;
      assert acc[1..][|acc| - 2].Segment?;
      var n := |acc| - 1;
      assert acc[..n][1..] == acc[1..][..n - 1];
      FoldClimbs(acc[..n], k - 1, rest);
      assert acc[..n][..n - (k - 1)] == acc[..|acc| - k];
    }
  }

  /** Against a path, `k` prefixes drop exactly its last `k` segments, and the segments after them are appended. */
  lemma ResolveClimbs(scope: AmlName, k: nat, rest: AmlName)
    requires IsPath(scope) && k < |scope| && AllSegments(rest)
    ensures Resolve(Prefixes(k) + rest, scope) == Ok(scope[..|scope| - k] + rest)
  {
    var name := Prefixes(k) + rest;
    NormalizeIsFold(scope + name);
    FoldSplits([], scope, name);
    PathIsNormal(scope);
    FoldOfNormal([], scope);
    assert [] + scope == scope;
    FoldClimbs(scope, k, rest);
  }

  // ---- Exactly when normalisation fails ----

  /** How many segments stand after the last root: those a prefix may still pop. */
  function Poppable(name: AmlName): nat
    decreases |name|
  {
    if name != [] && name[|name| - 1].Segment? then 1 + Poppable(name[..|name| - 1]) else 0
  }

  /** Segments minus prefixes. */
  function Climb(name: AmlName): int
    decreases |name|
  {
    if name == [] then 0
    else (if name[0].Segment? then 1 else if name[0] == Prefix then -1 else 0) + Climb(name[1..])
  }

  /** Between a root (or the start) and `j`, the prefixes outnumber the segments. */
  predicate Overclimbs(name: AmlName, i: int, j: int) {
    && 0 <= i <= j <= |name|
    && (i == 0 || name[i - 1] == Root)
    && Root !in name[i..j]
    && Climb(name[i..j]) < 0
  }

  /** A root-free stretch of the name, started with `h` segments to pop, pops one too many. */
  predicate DropsBelow(h: nat, s: AmlName, j: int) {
    0 <= j <= |s| && Root !in s[..j] && h + Climb(s[..j]) < 0
  }

  ghost predicate SomeDrop(h: nat, s: AmlName) { exists j :: DropsBelow(h, s, j) }

  ghost predicate SomeInnerOverclimb(s: AmlName) { exists i, j :: i > 0 && Overclimbs(s, i, j) }

  lemma {:induction false} FoldFailsIff(acc: AmlName, s: AmlName, h: nat)
    requires IsNormal(acc) && h == Poppable(acc)
    ensures FoldName(acc, s).None? <==> SomeDrop(h, s) || SomeInnerOverclimb(s)
    decreases |s|
  {
    if s == [] {
      NothingDrops(h);
    } else if s[0] == Root {
      FoldFailsIff(acc + [Root], s[1..], 0);
      AfterRoot(h, s);
    } else if s[0].Segment? {
      assert (acc + [s[0]])[..|acc|] == acc;
      FoldFailsIff(acc + [s[0]], s[1..], h + 1);
      StepDown(h, h + 1, s);
      NoRootFirst(s);
    } else if h > 0 {
      FoldFailsIff(acc[..|acc| - 1], s[1..], h - 1);
      StepDown(h, h - 1, s);
      NoRootFirst(s);
    } else {
      PrefixDrops(s);
    }
  }

  lemma NothingDrops(h: nat)
    ensures !SomeDrop(h, []) && !SomeInnerOverclimb([])
  {
    var e: AmlName := [];
    assert forall j :: 0 <= j <= |e| ==> e[..j] == [];
  }

  lemma PrefixDrops(s: AmlName)
    requires s != [] && s[0] == Prefix
    ensures SomeDrop(0, s)
  {
    assert s[..1] == [Prefix];
    assert Climb([Prefix]) == -1 + Climb([]);
    assert DropsBelow(0, s, 1);
  }

  lemma StepDown(h: nat, h': nat, s: AmlName)
    requires s != [] && s[0] != Root
    requires h' - h == Climb([s[0]])
    ensures SomeDrop(h, s) <==> SomeDrop(h', s[1..])
  {
    assert Climb([s[0]]) == Climb([s[0]][1..]) + (if s[0].Segment? then 1 else -1);
    forall j | 0 <= j < |s| ensures DropsBelow(h', s[1..], j) <==> DropsBelow(h, s, j + 1) {
      assert s[..j + 1] == [s[0]] + s[1..][..j];
      assert s[..j + 1][1..] == s[1..][..j];
    }
    assert !DropsBelow(h, s, 0);
    if exists j :: DropsBelow(h, s, j) {
      var j :| DropsBelow(h, s, j);
      assert DropsBelow(h', s[1..], j - 1);
    }
    if exists j :: DropsBelow(h', s[1..], j) {
      var j :| DropsBelow(h', s[1..], j);
      assert DropsBelow(h, s, j + 1);
    }
  }

  lemma SliceOfRest(s: AmlName, i: nat, j: nat)
    requires i <= j < |s|
    ensures s[1..][i..j] == s[i + 1..j + 1]
  {
  }

  lemma AfterRoot(h: nat, s: AmlName)
    requires s != [] && s[0] == Root
    ensures SomeDrop(h, s) || SomeInnerOverclimb(s) <==> SomeDrop(0, s[1..]) || SomeInnerOverclimb(s[1..])
  {
    forall j ensures !DropsBelow(h, s, j) {
      if 0 < j <= |s| { assert s[..j][0] == Root; }
    }
    var t := s[1..];
    forall i, j | 0 <= i <= j <= |t| ensures t[i..j] == s[i + 1..j + 1] && t[0..j] == t[..j] { SliceOfRest(s, i, j); }
    if exists i, j :: i > 0 && Overclimbs(s, i, j) {
      var i, j :| i > 0 && Overclimbs(s, i, j);
      if i == 1 { assert DropsBelow(0, t, j - 1); } else { assert Overclimbs(t, i - 1, j - 1); }
    }
    if exists j :: DropsBelow(0, t, j) {
      var j :| DropsBelow(0, t, j);
      assert Overclimbs(s, 1, j + 1);
    }
    if exists i, j :: i > 0 && Overclimbs(t, i, j) {
      var i, j :| i > 0 && Overclimbs(t, i, j);
      assert Overclimbs(s, i + 1, j + 1);
    }
  }

  lemma NoRootFirst(s: AmlName)
    requires s != [] && s[0] != Root
    ensures SomeInnerOverclimb(s) <==> SomeInnerOverclimb(s[1..])
  {
    var t := s[1..];
    forall i, j | 0 < i <= j <= |t| ensures Overclimbs(t, i, j) <==> Overclimbs(s, i + 1, j + 1) {
      SliceOfRest(s, i, j);
    }
    if exists i, j :: i > 0 && Overclimbs(s, i, j) {
      var i, j :| i > 0 && Overclimbs(s, i, j);
      assert Overclimbs(t, i - 1, j - 1);
    }
    if exists i, j :: i > 0 && Overclimbs(t, i, j) {
      var i, j :| i > 0 && Overclimbs(t, i, j);
      assert Overclimbs(s, i + 1, j + 1);
    }
  }

  /** `normalize` fails exactly when, after some root or from the start, prefixes outnumber segments. */
  lemma NormalizeFailsIff(name: AmlName)
    ensures Normalize(name).Err? <==> exists i, j :: Overclimbs(name, i, j)
  {
    NormalizeIsFold(name);
    FoldFailsIff([], name, 0);
    forall j | 0 <= j <= |name| ensures DropsBelow(0, name, j) <==> Overclimbs(name, 0, j) {
      assert name[0..j] == name[..j];
    }
    if exists j :: DropsBelow(0, name, j) {
      var j :| DropsBelow(0, name, j);
      assert Overclimbs(name, 0, j);
    }
    if exists i, j :: Overclimbs(name, i, j) {
      var i, j :| Overclimbs(name, i, j);
      if i == 0 { assert DropsBelow(0, name, j); }
    }
  }

  // ---- Paths ----

  lemma {:induction false} FoldKeepsRoot(acc: AmlName, s: AmlName)
    requires IsAbsolute(acc)
    ensures FoldName(acc, s).Some? ==> IsAbsolute(FoldName(acc, s).value)
    decreases |s|
  {
    if s != [] {
      if s[0] != Prefix {
        FoldKeepsRoot(acc + [s[0]], s[1..]);
      } else if acc[|acc| - 1].Segment? {
        FoldKeepsRoot(acc[..|acc| - 1], s[1..]);
      }
    }
  }

  lemma {:induction false} FoldKeepsPath(acc: AmlName, s: AmlName)
    requires IsPath(acc) && Root !in s
    ensures FoldName(acc, s).Some? ==> IsPath(FoldName(acc, s).value)
    decreases |s|
  {
    if s != [] {
      if s[0] != Prefix {
        assert s[0] != Root;
        FoldKeepsPath(acc + [s[0]], s[1..]);
      } else if acc[|acc| - 1].Segment? {
        FoldKeepsPath(acc[..|acc| - 1], s[1..]);
      }
    }
  }

  /** A root is never popped, so one inside a name stays inside. */
  lemma {:induction false} FoldKeepsInnerRoot(acc: AmlName, s: AmlName)
    requires IsAbsolute(acc) && (Root in acc[1..] || Root in s)
    ensures FoldName(acc, s).Some? ==> IsAbsolute(FoldName(acc, s).value) && Root in FoldName(acc, s).value[1..]
    decreases |s|
  {
    if s != [] {
      if s[0] != Prefix {
        assert (acc + [s[0]])[1..] == acc[1..] + [s[0]];
        FoldKeepsInnerRoot(acc + [s[0]], s[1..]);
      } else if acc[|acc| - 1].Segment? {
        var n := |acc| - 1;
        assert acc[1..] == acc[..n][1..] + [acc[n]];
        FoldKeepsInnerRoot(acc[..n], s[1..]);
      }
    }
  }

  lemma PathIsNormal(name: AmlName)
    requires IsPath(name)
    ensures IsNormal(name) && Normalize(name) == Ok(name)
  {
    assert forall i :: 0 < i < |name| ==> name[i] == name[1..][i - 1];
  }

  /** An absolute name with no inner root normalises to a path, or not at all. */
  lemma NormalizeGivesPath(name: AmlName)
    requires IsAbsolute(name) && Root !in name[1..]
    ensures Normalize(name).Ok? ==> IsPath(Normalize(name).value)
  {
    NormalizeIsFold(name);
    assert name == [Root] + name[1..];
    FoldSplits([], [Root], name[1..]);
    FoldOfNormal([], [Root]);
    assert [] + [Root] == [Root];
    FoldKeepsPath([Root], name[1..]);
  }

  lemma InnerRootStays(name: AmlName)
    requires IsAbsolute(name) && Root in name[1..] && Normalize(name).Ok?
    ensures var n := Normalize(name).value; IsAbsolute(n) && Root in n[1..]
  {
    NormalizeIsFold(name);
    assert name == [Root] + name[1..];
    FoldSplits([], [Root], name[1..]);
    FoldOfNormal([], [Root]);
    assert [] + [Root] == [Root];
    FoldKeepsRoot([Root], name[1..]);
    FoldKeepsInnerRoot([Root], name[1..]);
  }

  /** A segment resolved against a path is the path extended by it, and `Parent` undoes that. */
  lemma ParentInvertsChild(scope: AmlName, seg: NameSeg)
    requires IsPath(scope)
    ensures Resolve([Segment(seg)], scope) == Ok(scope + [Segment(seg)])
    ensures IsPath(scope + [Segment(seg)])
    ensures Parent(scope + [Segment(seg)]) == Ok(scope)
  {
    var child := scope + [Segment(seg)];
    assert child[1..] == scope[1..] + [Segment(seg)];
    PathIsNormal(child);
    assert child[..|child| - 1] == scope;
  }

  // ---- Resolution ----

  lemma ResolveIsAbsolute(name: AmlName, scope: AmlName)
    requires IsAbsolute(scope)
    ensures Resolve(name, scope).Ok? ==> IsAbsolute(Resolve(name, scope).value)
  {
    NormalizeIsFold(scope + name);
    var rest := (scope + name)[1..];
    assert scope + name == [Root] + rest;
    FoldSplits([], [Root], rest);
    FoldOfNormal([], [Root]);
    assert [] + [Root] == [Root];
    FoldKeepsRoot([Root], rest);
  }

  /** A resolved name is normal exactly if it was relative, or already normal: absolute names are not normalised. */
  lemma ResolveNormalizesIff(name: AmlName, scope: AmlName)
    requires IsAbsolute(scope) && Resolve(name, scope).Ok?
    ensures IsNormal(Resolve(name, scope).value) <==> !IsAbsolute(name) || IsNormal(name)
  {
    NormalizeIsPrefixFree(scope + name);
  }

  /** A name of the grammar resolves to a path, or not at all. */
  lemma GrammarNameResolves(name: GrammarName, scope: PathName)
    ensures Resolve(name, scope).Ok? ==> IsPath(Resolve(name, scope).value)
  {
    if !IsAbsolute(name) {
      assert Root !in name by {
        forall i | 0 <= i < |name| ensures name[i] != Root {
          var k := LeadingPrefixes(name);
          if i >= k { assert name[k..][i - k].Segment?; }
        }
      }
      assert (scope + name)[1..] == scope[1..] + name;
      NormalizeGivesPath(scope + name);
    } else if name[0] == Root && LeadingPrefixes(name) == 0 {
      assert IsPath(name) by { assert name[0..] == name; }
    }
  }

  /** Resolving `a`, then `b` inside the result, is resolving `a` followed by `b`. */
  lemma ResolveIsAssociative(a: AmlName, b: AmlName, scope: AmlName)
    requires IsAbsolute(scope) && !IsAbsolute(a) && !IsAbsolute(b)
    requires Resolve(a, scope).Ok?
    ensures IsAbsolute(Resolve(a, scope).value)
    ensures SameOutcome(Resolve(b, Resolve(a, scope).value), Resolve(a + b, scope))
  {
    ResolveIsAbsolute(a, scope);
    NormalizeIsHomomorphism(scope + a, b);
    assert scope + a + b == scope + (a + b);
    assert !IsAbsolute(a + b) by { if a == [] { assert a + b == b; } }
  }
}
