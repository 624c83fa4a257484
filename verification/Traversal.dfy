/** Visiting the levels of the namespace (aml/src/namespace.rs:317-341). */
module Traversal {
  import opened Types
  import opened Names
  import opened Levels

  // ---- The children of a level, in the map's order ----

  function Rank(s: NameSeg): nat {
    var a: nat, b: nat, c: nat, d: nat := s[0], s[1], s[2], s[3];
    ((a * 256 + b) * 256 + c) * 256 + d
  }

  lemma RankIsInjective(a: NameSeg, b: NameSeg)
    requires Rank(a) == Rank(b)
    ensures a == b
  {
    var x, y := a[0] as nat * 256 + a[1] as nat, b[0] as nat * 256 + b[1] as nat;
    TopDigit(x * 256 + a[2] as nat, a[3], y * 256 + b[2] as nat, b[3]);
    TopDigit(x, a[2], y, b[2]);
    TopDigit(a[0], a[1], b[0], b[1]);
  }

  lemma TopDigit(x: nat, c: byte, y: nat, d: byte)
    requires x * 256 + c as nat == y * 256 + d as nat
    ensures x == y && c == d
  {
  }

  predicate Ascending(s: seq<NameSeg>) { forall i, j :: 0 <= i < j < |s| ==> Rank(s[i]) < Rank(s[j]) }

  predicate IsLeast(k: NameSeg, ks: set<NameSeg>) { k in ks && forall o :: o in ks ==> Rank(k) <= Rank(o) }

  lemma LeastExists(ks: set<NameSeg>)
    requires ks != {}
    ensures exists k :: IsLeast(k, ks)
  {
    var a :| a in ks;
    if ks == {a} {
      assert IsLeast(a, ks);
    } else {
      var rest := ks - {a};
      LeastExists(rest);
      var b :| IsLeast(b, rest);
      assert IsLeast(if Rank(a) <= Rank(b) then a else b, ks);
    }
  }

  lemma LeastGoesFirst(k: NameSeg, ks: set<NameSeg>, rest: seq<NameSeg>)
    requires IsLeast(k, ks) && (forall o :: o in ks - {k} <==> o in rest) && Ascending(rest)
    ensures Ascending([k] + rest) && (forall o :: o in ks <==> o in [k] + rest)
  {
    hide Rank;
    forall i | 0 <= i < |rest| ensures Rank(k) < Rank(rest[i]) {
      assert rest[i] in ks - {k};
      if Rank(k) == Rank(rest[i]) { RankIsInjective(k, rest[i]); }
    }
  }

  /** The keys in ascending order, as a `BTreeMap` yields them. */
  ghost function Sorted(ks: set<NameSeg>): (s: seq<NameSeg>)
    ensures forall k :: k in ks <==> k in s
    ensures Ascending(s)
    decreases |ks|
  {
    if ks == {} then [] else
      LeastExists(ks);
      var k :| IsLeast(k, ks);
      var rest := Sorted(ks - {k});
      LeastGoesFirst(k, ks, rest);
      [k] + rest
  }

  // ---- The traversal ----

  /** One call of the visitor that returned an answer. */
  datatype Visit = Visit(path: Segs, level: Level, answer: bool)

  /** The visitor's state afterwards, the calls made, and how the traversal ended. */
  datatype Trip<S> = Trip(state: S, trace: seq<Visit>, result: Result<()>)

  /** A visitor with mutable state; it sees the path and the level. */
  type Visitor<!S> = (S, AmlName, Level) -> (S, Result<bool>)

  ghost function TraverseLevel<S>(level: Level, scope: Segs, keys: seq<NameSeg>, f: Visitor<S>, st: S): Trip<S>
    requires forall k :: k in keys ==> k in level.children
    decreases level, |keys|
  {
    if keys == [] then Trip(st, [], Ok(())) else
      var child := level.children[keys[0]];
      var path := scope + [keys[0]];
      match f(st, PathOf(path), child)
      case (st1, Err(e)) => Trip(st1, [], Err(e))
      case (st1, Ok(into)) =>
        var sub := if into then TraverseLevel(child, path, Sorted(child.children.Keys), f, st1)
                   else Trip(st1, [], Ok(()));
        var seen := [Visit(path, child, into)] + sub.trace;
        if sub.result.Err? then Trip(sub.state, seen, sub.result) else
          var rest := TraverseLevel(level, scope, keys[1..], f, sub.state);
          Trip(rest.state, seen + rest.trace, rest.result)
  }

  ghost function Traverse<S>(root: Level, f: Visitor<S>, st: S): Trip<S> {
    match f(st, ROOT_NAME, root)
    case (st1, Err(e)) => Trip(st1, [], Err(e))
    case (st1, Ok(into)) =>
      var here := [Visit([], root, into)];
      if !into then Trip(st1, here, Ok(())) else
        var sub := TraverseLevel(root, [], Sorted(root.children.Keys), f, st1);
        Trip(sub.state, here + sub.trace, sub.result)
  }

  /** The name the code builds for a child is the child's absolute path. */
  lemma ChildName(scope: Segs, seg: NameSeg)
    ensures Resolve([Segment(seg)], PathOf(scope)) == Ok(PathOf(scope + [seg]))
  {
    ParentInvertsChild(PathOf(scope), seg);
    assert PathOf(scope + [seg]) == PathOf(scope) + [Segment(seg)];
  }

  // ---- What a traversal visits ----

  predicate Seen(t: seq<Visit>, p: Segs) { exists i :: 0 <= i < |t| && t[i].path == p }

  /** Among the first `n` visits, one of `p` answered true. */
  predicate OpenedBefore(t: seq<Visit>, n: int, p: Segs) {
    exists i :: 0 <= i < |t| && i < n && t[i].path == p && t[i].answer
  }

  predicate Opened(t: seq<Visit>, p: Segs) { OpenedBefore(t, |t|, p) }

  predicate Under(p: Segs, scope: Segs, keys: seq<NameSeg>) { scope < p && p[|scope|] in keys }

  predicate OnceEach(t: seq<Visit>) { forall i, j :: 0 <= i < j < |t| ==> t[i].path != t[j].path }

  /** Only levels under the given keys, each with its own level. */
  predicate OnlyLevels(t: seq<Visit>, level: Level, scope: Segs, keys: seq<NameSeg>) {
    forall i :: 0 <= i < |t| ==>
      && Under(t[i].path, scope, keys)
      && HasLevel(level, t[i].path[|scope|..])
      && t[i].level == LevelAt(level, t[i].path[|scope|..])
  }

  /** Every visit below the first generation comes after a visit of its parent that answered true. */
  predicate ParentsFirst(t: seq<Visit>, scope: Segs) {
    forall j {:trigger OpenedBefore(t, j, Init(t[j].path))} ::
      0 <= j < |t| && |t[j].path| > |scope| + 1 ==> OpenedBefore(t, j, Init(t[j].path))
  }

  /** Every level whose parent answered true is visited. */
  ghost predicate NoneSkipped(t: seq<Visit>, level: Level, scope: Segs, keys: seq<NameSeg>) {
    forall p {:trigger Seen(t, p)} ::
      Under(p, scope, keys) && HasLevel(level, p[|scope|..]) && (|p| == |scope| + 1 || Opened(t, Init(p)))
      ==> Seen(t, p)
  }

  lemma {:induction false} TraverseLevelVisits<S>(level: Level, scope: Segs, keys: seq<NameSeg>, f: Visitor<S>, st: S)
    requires forall k :: k in keys ==> k in level.children
    requires forall i, j :: 0 <= i < j < |keys| ==> keys[i] != keys[j]
    requires TraverseLevel(level, scope, keys, f, st).result.Ok?
    ensures var t := TraverseLevel(level, scope, keys, f, st).trace;
            && OnlyLevels(t, level, scope, keys) && OnceEach(t)
            && ParentsFirst(t, scope) && NoneSkipped(t, level, scope, keys)
    decreases level, |keys|
  {
    if keys != [] {
      var child := level.children[keys[0]];
      var path := scope + [keys[0]];
      var (st1, into) := f(st, PathOf(path), child);
      var below := Sorted(child.children.Keys);
      var sub := if into.value then TraverseLevel(child, path, below, f, st1) else Trip(st1, [], Ok(()));
      if into.value { TraverseLevelVisits(child, path, below, f, st1); }
      TraverseLevelVisits(level, scope, keys[1..], f, sub.state);
      var rest := TraverseLevel(level, scope, keys[1..], f, sub.state);
      JoinVisits(level, scope, keys, into.value, sub.trace, rest.trace);
    }
  }

  /** One child's visit, then its subtree, then its younger siblings. */
  lemma JoinVisits(level: Level, scope: Segs, keys: seq<NameSeg>, into: bool, sub: seq<Visit>, rest: seq<Visit>)
    requires keys != [] && (forall k :: k in keys ==> k in level.children)
    requires forall i, j :: 0 <= i < j < |keys| ==> keys[i] != keys[j]
    requires var child, path := level.children[keys[0]], scope + [keys[0]];
             var below := Sorted(child.children.Keys);
             if into then OnlyLevels(sub, child, path, below) && OnceEach(sub) && ParentsFirst(sub, path)
                          && NoneSkipped(sub, child, path, below)
             else sub == []
    requires OnlyLevels(rest, level, scope, keys[1..]) && OnceEach(rest) && ParentsFirst(rest, scope)
             && NoneSkipped(rest, level, scope, keys[1..])
    ensures var child, path := level.children[keys[0]], scope + [keys[0]];
            var t := [Visit(path, child, into)] + sub + rest;
            && OnlyLevels(t, level, scope, keys) && OnceEach(t)
            && ParentsFirst(t, scope) && NoneSkipped(t, level, scope, keys)
  {
    var child, path := level.children[keys[0]], scope + [keys[0]];
    var head := Visit(path, child, into);
    JoinOnlyLevels(level, scope, keys, head, sub, rest);
    JoinOnceEach(scope, keys, head, sub, rest, level);
    JoinParentsFirst(scope, path, head, sub, rest);
    JoinNoneSkipped(level, scope, keys, into, sub, rest);
  }

  lemma JoinOnlyLevels(level: Level, scope: Segs, keys: seq<NameSeg>, head: Visit, sub: seq<Visit>, rest: seq<Visit>)
    requires keys != [] && keys[0] in level.children
    requires head.path == scope + [keys[0]] && head.level == level.children[keys[0]]
    requires sub != [] ==> OnlyLevels(sub, head.level, head.path, Sorted(head.level.children.Keys))
    requires OnlyLevels(rest, level, scope, keys[1..])
    ensures OnlyLevels([head] + sub + rest, level, scope, keys)
  {
    hide Rank, Ascending, Sorted;
    var t := [head] + sub + rest;
    forall i | 0 <= i < |t|
      ensures Under(t[i].path, scope, keys) && HasLevel(level, t[i].path[|scope|..])
      ensures t[i].level == LevelAt(level, t[i].path[|scope|..])
    {
      var p := t[i].path;
      if i == 0 {
        assert p[|scope|..] == [keys[0]];
        assert [keys[0]][1..] == [];
        assert HasLevel(head.level, []) && NodeAt(level, [keys[0]]) == NodeAt(head.level, []);
      } else if i <= |sub| {
        assert t[i] == sub[i - 1];
        var q := p[|scope|..];
        assert q[1..] == p[|head.path|..] && q[0] == keys[0] && scope < p;
        assert HasLevel(head.level, q[1..]) && NodeAt(level, q) == NodeAt(head.level, q[1..]);
      } else {
        assert t[i] == rest[i - 1 - |sub|];
      }
    }
  }

  lemma JoinOnceEach(scope: Segs, keys: seq<NameSeg>, head: Visit, sub: seq<Visit>, rest: seq<Visit>, level: Level)
    requires keys != [] && forall i, j :: 0 <= i < j < |keys| ==> keys[i] != keys[j]
    requires head.path == scope + [keys[0]]
    requires sub != [] ==> OnlyLevels(sub, head.level, head.path, Sorted(head.level.children.Keys))
    requires OnlyLevels(rest, level, scope, keys[1..])
    requires OnceEach(sub) && OnceEach(rest)
    ensures OnceEach([head] + sub + rest)
  {
    assert keys[0] !in keys[1..];
    assert forall i :: 0 <= i < |sub| ==> head.path < sub[i].path && sub[i].path[|scope|] == keys[0];
    assert forall i :: 0 <= i < |rest| ==> rest[i].path[|scope|] in keys[1..];
  }

  lemma OpenedGrows(t: seq<Visit>, n: nat, u: seq<Visit>, k: nat, p: Segs)
    requires OpenedBefore(t, n, p) && k + |t| <= |u| && u[k..k + |t|] == t
    ensures OpenedBefore(u, k + n, p)
  {
    var i :| 0 <= i < |t| && i < n && t[i].path == p && t[i].answer;
    assert u[k + i] == t[i];
  }

  lemma SeenGrows(t: seq<Visit>, u: seq<Visit>, k: nat, p: Segs)
    requires Seen(t, p) && k + |t| <= |u| && u[k..k + |t|] == t
    ensures Seen(u, p)
  {
    var i :| 0 <= i < |t| && t[i].path == p;
    assert u[k + i] == t[i];
  }

  lemma JoinParentsFirst(scope: Segs, path: Segs, head: Visit, sub: seq<Visit>, rest: seq<Visit>)
    requires |path| == |scope| + 1 && head.path == path
    requires sub != [] ==> head.answer && ParentsFirst(sub, path)
    requires forall i :: 0 <= i < |sub| ==> path < sub[i].path
    requires ParentsFirst(rest, scope)
    ensures ParentsFirst([head] + sub + rest, scope)
  {
    var t := [head] + sub + rest;
    assert t[1..1 + |sub|] == sub && t[1 + |sub|..1 + |sub| + |rest|] == rest;
    assert t[0] == head;
    forall j | 0 <= j < |t| && |t[j].path| > |scope| + 1 ensures OpenedBefore(t, j, Init(t[j].path)) {
      if 0 < j <= |sub| {
        assert t[j] == sub[j - 1];
        if |t[j].path| == |path| + 1 {
          assert Init(t[j].path) == path;
        } else {
          assert OpenedBefore(sub, j - 1, Init(sub[j - 1].path));
          OpenedGrows(sub, j - 1, t, 1, Init(t[j].path));
        }
      } else {
        var k := j - 1 - |sub|;
        assert t[j] == rest[k];
        assert OpenedBefore(rest, k, Init(rest[k].path));
        OpenedGrows(rest, k, t, 1 + |sub|, Init(t[j].path));
      }
    }
  }

  /** A level in the visited child's subtree. */
  lemma NoneSkippedBelow(child: Level, scope: Segs, seg: NameSeg, head: Visit, sub: seq<Visit>, rest: seq<Visit>,
                         p: Segs)
    requires head.path == scope + [seg] && head.level == child
    requires var below := Sorted(child.children.Keys);
             if head.answer then OnlyLevels(sub, child, head.path, below) && NoneSkipped(sub, child, head.path, below)
             else sub == []
    requires forall i :: 0 <= i < |rest| ==> |rest[i].path| > |scope| && rest[i].path[|scope|] != seg
    requires head.path <= p && HasLevel(child, p[|head.path|..])
    requires p == head.path || Opened([head] + sub + rest, Init(p))
    ensures Seen([head] + sub + rest, p)
  {
    hide LevelAt, Rank, Sorted, Ascending;
    var t := [head] + sub + rest;
    var below := Sorted(child.children.Keys);
    if p == head.path {
      assert t[0].path == p;
    } else {
      assert p[|head.path|..][0] in child.children;
      assert Under(p, head.path, below);
      var i :| 0 <= i < |t| && t[i].path == Init(p) && t[i].answer;
      assert Init(p)[|scope|] == seg;
      if i == 0 {
        assert |p| == |head.path| + 1;
      } else {
        assert i <= |sub| && t[i] == sub[i - 1];
        assert Opened(sub, Init(p));
      }
      assert t[1..1 + |sub|] == sub;
      SeenGrows(sub, t, 1, p);
    }
  }

  /** A level in the subtree of a younger sibling. */
  lemma NoneSkippedBeside(level: Level, scope: Segs, seg: NameSeg, keys: seq<NameSeg>, head: Visit, sub: seq<Visit>,
                          rest: seq<Visit>, p: Segs)
    requires head.path == scope + [seg]
    requires forall i :: 0 <= i < |sub| ==> head.path < sub[i].path
    requires NoneSkipped(rest, level, scope, keys)
    requires Under(p, scope, keys) && p[|scope|] != seg && HasLevel(level, p[|scope|..])
    requires |p| == |scope| + 1 || Opened([head] + sub + rest, Init(p))
    ensures Seen([head] + sub + rest, p)
  {
    hide HasLevel;
    var t := [head] + sub + rest;
    if |p| > |scope| + 1 {
      var i :| 0 <= i < |t| && t[i].path == Init(p) && t[i].answer;
      assert Init(p)[|scope|] == p[|scope|];
      assert forall j :: 0 <= j < |sub| ==> sub[j].path[|scope|] == seg;
      assert t[i] == rest[i - 1 - |sub|];
      assert Opened(rest, Init(p));
    }
    assert t[1 + |sub|..1 + |sub| + |rest|] == rest;
    SeenGrows(rest, t, 1 + |sub|, p);
  }

  lemma JoinNoneSkipped(level: Level, scope: Segs, keys: seq<NameSeg>, into: bool, sub: seq<Visit>, rest: seq<Visit>)
    requires keys != [] && keys[0] in level.children
    requires forall i, j :: 0 <= i < j < |keys| ==> keys[i] != keys[j]
    requires var child, path := level.children[keys[0]], scope + [keys[0]];
             var below := Sorted(child.children.Keys);
             if into then OnlyLevels(sub, child, path, below) && NoneSkipped(sub, child, path, below) else sub == []
    requires OnlyLevels(rest, level, scope, keys[1..]) && NoneSkipped(rest, level, scope, keys[1..])
    ensures NoneSkipped([Visit(scope + [keys[0]], level.children[keys[0]], into)] + sub + rest, level, scope, keys)
  {
    hide Seen, Opened, LevelAt;
    var child, path := level.children[keys[0]], scope + [keys[0]];
    var head := Visit(path, child, into);
    var t := [head] + sub + rest;
    assert keys[0] !in keys[1..] && keys == [keys[0]] + keys[1..];
    forall p | Under(p, scope, keys) && HasLevel(level, p[|scope|..]) && (|p| == |scope| + 1 || Opened(t, Init(p)))
      ensures Seen(t, p)
    {
      if p[|scope|] == keys[0] {
        assert p[|scope|..][1..] == p[|path|..];
        assert p[..|path|] == path;
        assert |p| == |path| ==> p == path;
        NoneSkippedBelow(child, scope, keys[0], head, sub, rest, p);
      } else {
        NoneSkippedBeside(level, scope, keys[0], keys[1..], head, sub, rest, p);
      }
    }
  }

  // ---- The whole tree ----

  /** All proper ancestors of a path answered true. */
  predicate AncestorsOpened(t: seq<Visit>, n: int, p: Segs) { forall k :: 0 <= k < |p| ==> OpenedBefore(t, n, p[..k]) }

  /** The visits below the root, seen from the root. */
  lemma RootJoins(root: Level, head: Visit, sub: seq<Visit>)
    requires head == Visit([], root, true)
    requires var keys := Sorted(root.children.Keys);
             OnlyLevels(sub, root, [], keys) && OnceEach(sub) && ParentsFirst(sub, [])
             && NoneSkipped(sub, root, [], keys)
    ensures IsFullTrace([head] + sub, root)
  {
    var t := [head] + sub;
    var keys := Sorted(root.children.Keys);
    forall i | 0 < i < |t|
      ensures ParentOpened(t, i) && HasLevel(root, t[i].path) && t[i].level == LevelAt(root, t[i].path)
    {
      RootVisitAt(root, keys, head, sub, i);
    }
    forall p: Segs | p != [] && HasLevel(root, p) && Opened(t, Init(p)) ensures Seen(t, p) {
      FirstIsChild(root, p);
      RootMissesNone(root, keys, head, sub, p);
    }
    hide NodeAt, LevelAt, Seen, OpenedBefore, NoneSkipped, ParentsFirst;
    assert OnceEach(t) by {
      assert forall i :: 0 <= i < |sub| ==> sub[i].path != [];
    }
  }

  lemma RootVisitAt(root: Level, keys: seq<NameSeg>, head: Visit, sub: seq<Visit>, i: int)
    requires head == Visit([], root, true) && 0 < i < |[head] + sub|
    requires OnlyLevels(sub, root, [], keys) && ParentsFirst(sub, [])
    ensures var t := [head] + sub;
            ParentOpened(t, i) && HasLevel(root, t[i].path) && t[i].level == LevelAt(root, t[i].path)
  {
    hide NodeAt, LevelAt;
    var t := [head] + sub;
    assert t[i] == sub[i - 1] && t[i].path[0..] == t[i].path;
    if |t[i].path| == 1 {
      assert t[0] == head && Init(t[i].path) == [];
    } else {
      assert t[1..1 + |sub|] == sub;
      OpenedGrows(sub, i - 1, t, 1, Init(t[i].path));
    }
  }

  lemma FirstIsChild(root: Level, p: Segs)
    requires p != [] && HasLevel(root, p)
    ensures p[0] in root.children.Keys
  {
  }

  lemma RootMissesNone(root: Level, keys: seq<NameSeg>, head: Visit, sub: seq<Visit>, p: Segs)
    requires head.path == [] && NoneSkipped(sub, root, [], keys)
    requires p != [] && p[0] in keys && HasLevel(root, p) && Opened([head] + sub, Init(p))
    ensures Seen([head] + sub, p)
  {
    hide HasLevel;
    var t := [head] + sub;
    assert p[0..] == p && Under(p, [], keys);
    if |p| > 1 {
      var i :| 0 <= i < |t| && t[i].path == Init(p) && t[i].answer;
      assert t[i] == sub[i - 1] && Opened(sub, Init(p));
    }
    assert t[1..1 + |sub|] == sub;
    SeenGrows(sub, t, 1, p);
  }

  predicate ParentOpened(t: seq<Visit>, i: int)
    requires 0 <= i < |t|
  {
    t[i].path != [] && OpenedBefore(t, i, Init(t[i].path))
  }

  /** A trace that starts at the root, visits levels once each, parents first, and skips no opened child. */
  ghost predicate IsFullTrace(t: seq<Visit>, root: Level) {
    && |t| > 0 && t[0].path == [] && t[0].level == root
    && OnceEach(t)
    && (forall i :: 0 < i < |t| ==> HasLevel(root, t[i].path) && t[i].level == LevelAt(root, t[i].path))
    && (forall i {:trigger ParentOpened(t, i)} :: 0 < i < |t| ==> ParentOpened(t, i))
    && (forall p: Segs {:trigger Seen(t, p)} :: p != [] && HasLevel(root, p) && Opened(t, Init(p)) ==> Seen(t, p))
  }

  lemma RootVisits<S>(root: Level, f: Visitor<S>, st: S)
    requires Traverse(root, f, st).result.Ok?
    ensures IsFullTrace(Traverse(root, f, st).trace, root)
  {
    var (st1, into) := f(st, ROOT_NAME, root);
    var head := Visit([], root, into.value);
    if into.value {
      var keys := Sorted(root.children.Keys);
      TraverseLevelVisits(root, [], keys, f, st1);
      RootJoins(root, head, TraverseLevel(root, [], keys, f, st1).trace);
    } else {
      assert forall p :: !Opened([head], p);
    }
  }

  lemma {:induction false} SeenHasAncestors(t: seq<Visit>, n: nat)
    requires n <= |t| && |t| > 0 && t[0].path == []
    requires forall i {:trigger ParentOpened(t, i)} :: 0 < i < |t| ==> ParentOpened(t, i)
    ensures forall i :: 0 <= i < n ==> AncestorsOpened(t, i, t[i].path)
    decreases n
  {
    if n > 1 {
      SeenHasAncestors(t, n - 1);
      var i := n - 1;
      assert ParentOpened(t, i);
      var p := t[i].path;
      var j :| 0 <= j < i && t[j].path == Init(p) && t[j].answer;
      assert AncestorsOpened(t, j, Init(p));
      forall k | 0 <= k < |p| ensures OpenedBefore(t, i, p[..k]) {
        if k < |p| - 1 {
          assert Init(p)[..k] == p[..k];
          assert OpenedBefore(t, j, Init(p)[..k]);
        } else {
          assert p[..k] == Init(p);
        }
      }
    }
  }

  /**
   An error-free traversal calls the visitor on exactly the levels all of whose proper ancestors answered
   true, once each, every ancestor before its descendants, each time with that level.
   */
  lemma TraverseVisitsExactly<S>(root: Level, f: Visitor<S>, st: S, p: Segs)
    requires Traverse(root, f, st).result.Ok?
    ensures var t := Traverse(root, f, st).trace;
            && OnceEach(t)
            && (Seen(t, p) <==> HasLevel(root, p) && AncestorsOpened(t, |t|, p))
            && (forall i :: 0 <= i < |t| && t[i].path == p ==>
                 HasLevel(root, p) && t[i].level == LevelAt(root, p) && AncestorsOpened(t, i, p))
  {
    hide Traverse;
    var t := Traverse(root, f, st).trace;
    RootVisits(root, f, st);
    SeenHasAncestors(t, |t|);
    if HasLevel(root, p) && AncestorsOpened(t, |t|, p) && p != [] {
      assert OpenedBefore(t, |t|, p[..|p| - 1]);
    }
    if Seen(t, p) {
      var i :| 0 <= i < |t| && t[i].path == p;
      forall k | 0 <= k < |p| ensures OpenedBefore(t, |t|, p[..k]) {
        assert OpenedBefore(t, i, p[..k]);
      }
    }
  }

  // ---- Siblings in order ----

  /** Of two levels with the same parent, the one with the smaller name comes first. */
  predicate SiblingsAscend(t: seq<Visit>) {
    forall i, j :: 0 <= i < j < |t| && t[i].path != [] && t[j].path != [] && Init(t[i].path) == Init(t[j].path) ==>
      Rank(Last(t[i].path)) < Rank(Last(t[j].path))
  }

  lemma JoinAscends(scope: Segs, keys: seq<NameSeg>, head: Visit, sub: seq<Visit>, rest: seq<Visit>)
    requires keys != [] && Ascending(keys) && head.path == scope + [keys[0]]
    requires SiblingsAscend(sub) && SiblingsAscend(rest)
    requires forall i :: 0 <= i < |sub| ==> head.path < sub[i].path
    requires forall i :: 0 <= i < |rest| ==> Under(rest[i].path, scope, keys[1..])
    ensures SiblingsAscend([head] + sub + rest)
  {
    hide Rank;
    var t := [head] + sub + rest;
    var n := |scope|;
    forall i, j | 0 <= i < |sub| && 0 <= j < |rest| ensures Init(sub[i].path) != Init(rest[j].path) {
      var p, q := sub[i].path, rest[j].path;
      assert q[n] in keys[1..] && p[n] == keys[0] && q[n] != p[n];
      assert Init(p)[n] == p[n] && (|q| == |p| ==> Init(q)[n] == q[n]);
    }
    forall i, j | 0 <= i < j < |t| && t[i].path != [] && t[j].path != [] && Init(t[i].path) == Init(t[j].path)
      ensures Rank(Last(t[i].path)) < Rank(Last(t[j].path))
    {
      assert t[j] == if j <= |sub| then sub[j - 1] else rest[j - 1 - |sub|];
      if i == 0 {
        assert |t[j].path| == n + 1 && Last(t[j].path) == t[j].path[n];
      } else {
        assert t[i] == if i <= |sub| then sub[i - 1] else rest[i - 1 - |sub|];
      }
    }
  }

  lemma {:induction false} LevelAscends<S>(level: Level, scope: Segs, keys: seq<NameSeg>, f: Visitor<S>, st: S)
    requires (forall k :: k in keys ==> k in level.children) && Ascending(keys)
    requires TraverseLevel(level, scope, keys, f, st).result.Ok?
    ensures SiblingsAscend(TraverseLevel(level, scope, keys, f, st).trace)
    decreases level, |keys|
  {
    if keys != [] {
      var child, path := level.children[keys[0]], scope + [keys[0]];
      var (st1, answer) := f(st, PathOf(path), child);
      var below := Sorted(child.children.Keys);
      var sub := if answer.value then TraverseLevel(child, path, below, f, st1) else Trip(st1, [], Ok(()));
      if answer.value {
        TraverseLevelVisits(child, path, below, f, st1);
        LevelAscends(child, path, below, f, st1);
      }
      TraverseLevelVisits(level, scope, keys[1..], f, sub.state);
      LevelAscends(level, scope, keys[1..], f, sub.state);
      JoinAscends(scope, keys, Visit(path, child, answer.value), sub.trace,
                  TraverseLevel(level, scope, keys[1..], f, sub.state).trace);
    }
  }

  /** A traversal visits siblings in the order of their names, as the ordered map of children yields them. */
  lemma TraverseAscends<S>(root: Level, f: Visitor<S>, st: S)
    requires Traverse(root, f, st).result.Ok?
    ensures SiblingsAscend(Traverse(root, f, st).trace)
  {
    hide TraverseLevel;
    var (st1, answer) := f(st, ROOT_NAME, root);
    if answer.value {
      LevelAscends(root, [], Sorted(root.children.Keys), f, st1);
    }
  }

  // ---- The visitor's state ----

  /**
   The visits are calls of the visitor one after the other, each from the state the last one left, on the
   level's own path, and each with the answer recorded; `end` is the state after them.
   */
  predicate Replays<S(==)>(t: seq<Visit>, f: Visitor<S>, st: S, end: S)
    decreases |t|
  {
    if t == [] then st == end
    else
      var (st1, answer) := f(st, PathOf(t[0].path), t[0].level);
      answer == Ok(t[0].answer) && Replays(t[1..], f, st1, end)
  }

  lemma {:induction false} ReplaysJoin<S>(a: seq<Visit>, b: seq<Visit>, f: Visitor<S>, st: S, mid: S, end: S)
    requires Replays(a, f, st, mid) && Replays(b, f, mid, end)
    ensures Replays(a + b, f, st, end)
    decreases |a|
  {
    if a == [] {
      assert a + b == b;
    } else {
      assert (a + b)[1..] == a[1..] + b;
      ReplaysJoin(a[1..], b, f, f(st, PathOf(a[0].path), a[0].level).0, mid, end);
    }
  }

  /** The traversal is over after `trip`'s visits, or the next call of the visitor, from `mid`, failed. */
  predicate EndsWith<S(==)>(trip: Trip<S>, f: Visitor<S>, mid: S, failed: Visit) {
    match trip.result
    case Ok(_) => mid == trip.state
    case Err(e) => f(mid, PathOf(failed.path), failed.level) == (trip.state, Err(e))
  }

  lemma {:induction false} LevelReplays<S>(level: Level, scope: Segs, keys: seq<NameSeg>, f: Visitor<S>, st: S)
      returns (mid: S, failed: Visit)
    requires forall k :: k in keys ==> k in level.children
    ensures var trip := TraverseLevel(level, scope, keys, f, st);
            Replays(trip.trace, f, st, mid) && EndsWith(trip, f, mid, failed)
    decreases level, |keys|
  {
    mid, failed := st, Visit(scope, level, false);
    if keys != [] {
      var child, path := level.children[keys[0]], scope + [keys[0]];
      var (st1, answer) := f(st, PathOf(path), child);
      failed := Visit(path, child, false);
      if answer.Ok? {
        var below := Sorted(child.children.Keys);
        var sub := if answer.value then TraverseLevel(child, path, below, f, st1) else Trip(st1, [], Ok(()));
        mid := st1;
        if answer.value { mid, failed := LevelReplays(child, path, below, f, st1); }
        var head := Visit(path, child, answer.value);
        assert [head][1..] == [] && Replays([head], f, st, st1);
        ReplaysJoin([head], sub.trace, f, st, st1, mid);
        if sub.result.Ok? {
          mid, failed := LevelReplays(level, scope, keys[1..], f, sub.state);
          var rest := TraverseLevel(level, scope, keys[1..], f, sub.state);
          ReplaysJoin([head] + sub.trace, rest.trace, f, st, sub.state, mid);
        }
      }
    }
  }

  /**
   A traversal is the sequence of its visits, from the state it starts in to the one it ends in; if it fails, the
   call after those visits did, and nothing is called after it.
   */
  lemma TraverseReplays<S>(root: Level, f: Visitor<S>, st: S) returns (mid: S, failed: Visit)
    ensures var trip := Traverse(root, f, st); Replays(trip.trace, f, st, mid) && EndsWith(trip, f, mid, failed)
  {
    hide TraverseLevel;
    var (st1, answer) := f(st, ROOT_NAME, root);
    mid, failed := st, Visit([], root, false);
    assert PathOf([]) == ROOT_NAME;
    if answer.Ok? {
      var head := Visit([], root, answer.value);
      assert [head][1..] == [] && Replays([head], f, st, st1);
      mid := st1;
      if answer.value {
        var keys := Sorted(root.children.Keys);
        var sub := TraverseLevel(root, [], keys, f, st1);
        mid, failed := LevelReplays(root, [], keys, f, st1);
        ReplaysJoin([head], sub.trace, f, st, st1, mid);
      }
    }
  }
}
