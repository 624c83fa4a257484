/** The namespace: its operations, and the flat path map they refine (aml/src/namespace.rs:55-312). */
module Namespaces {
  import opened Types
  import opened Names
  import opened Levels

  const HANDLE_COUNT: nat := 0x1_0000_0000

  datatype Space<V> = Space(nextHandle: u32, objects: map<u32, V>, root: Level)

  function EmptySpace<V>(): Space<V> { Space(0, map[], NewLevel(ScopeLevel)) }

  // ---- The operations on absolute, normal, non-root paths ----

  function AddLevelAt<V>(ns: Space<V>, p: Segs, typ: LevelType): (r: (Space<V>, Result<()>))
    requires p != []
  {
    match Walk(ns.root, Init(p))
    case Err(e) => (ns, Err(e))
    case Ok(l) =>
      if Last(p) in l.children then (ns, Ok(()))
      else (ns.(root := ReplaceAt(ns.root, Init(p), l.(children := l.children[Last(p) := NewLevel(typ)]))), Ok(()))
  }

  function RemoveLevelAt<V>(ns: Space<V>, p: Segs): (r: (Space<V>, Result<()>))
    requires p != []
  {
    match Walk(ns.root, Init(p))
    case Err(e) => (ns, Err(e))
    case Ok(l) =>
      if Last(p) !in l.children then (ns, Err(LevelDoesNotExist(PathOf(p))))
      else (ns.(root := ReplaceAt(ns.root, Init(p), l.(children := l.children - {Last(p)}))), Ok(()))
  }

  /** The next handle is used up by a value. */
  function Taken<V>(ns: Space<V>, value: V): Space<V> {
    ns.(nextHandle := (ns.nextHandle + 1) % HANDLE_COUNT, objects := ns.objects[ns.nextHandle := value])
  }

  /** A handle is taken and the value recorded before the path is even walked. */
  function AddValueAt<V>(ns: Space<V>, p: Segs, value: V): (r: (Space<V>, Result<u32>))
    requires p != []
  {
    var h, taken := ns.nextHandle, Taken(ns, value);
    match Walk(ns.root, Init(p))
    case Err(e) => (taken, Err(e))
    case Ok(l) =>
      (taken.(root := ReplaceAt(ns.root, Init(p), l.(values := l.values[Last(p) := h]))),
       if Last(p) in l.values then Err(NameCollision(PathOf(p))) else Ok(h))
  }

  function HandleAt<V>(ns: Space<V>, p: Segs): (r: Result<u32>)
    requires p != []
  {
    match Walk(ns.root, Init(p))
    case Err(e) => Err(e)
    case Ok(l) => if Last(p) in l.values then Ok(l.values[Last(p)]) else Err(ValueDoesNotExist(PathOf(p)))
  }

  // ---- The flat model ----

  /** Level paths with their types, and value paths with their handles. */
  datatype Flat = Flat(levels: imap<Segs, LevelType>, values: imap<Segs, u32>)

  ghost function Abs(root: Level): Flat { Flat(LevelMap(root), ValueMap(root)) }

  ghost function LevelMap(root: Level): imap<Segs, LevelType> {
    imap p: Segs | HasLevel(root, p) :: NodeAt(root, p).value.typ
  }

  ghost function ValueMap(root: Level): imap<Segs, u32> {
    imap p: Segs | Lookup(root, p).Some? :: Lookup(root, p).value
  }

  lemma LevelMapIs(root: Level, m: imap<Segs, LevelType>)
    requires forall q :: NodeAt(root, q).Some? <==> q in m
    requires forall q :: q in m ==> NodeAt(root, q).value.typ == m[q]
    ensures LevelMap(root) == m
  {
    hide NodeAt;
  }

  lemma ValueMapIs(root: Level, m: imap<Segs, u32>)
    requires forall q :: Lookup(root, q) == if q in m then Some(m[q]) else None
    ensures ValueMap(root) == m
  {
    hide Lookup;
  }

  /** The shortest missing prefix of a path, if its enclosing level is missing. */
  ghost predicate IsFirstMissing(f: Flat, p: Segs, k: nat) {
    k <= |p| && p[..k] !in f.levels && forall j: nat :: j < k ==> p[..j] in f.levels
  }

  ghost predicate FailsAtMissingLevel<T>(f: Flat, p: Segs, r: Result<T>) {
    exists k: nat :: IsFirstMissing(f, p, k) && r == Err(LevelDoesNotExist(PathOf(p[..k])))
  }

  ghost function FlatDrop(f: Flat, p: Segs): Flat {
    Flat(imap q: Segs | q in f.levels && !(p <= q) :: f.levels[q],
         imap q: Segs | q in f.values && !(p < q) :: f.values[q])
  }

  /** What a node reads after the level at `p` got other children or values, in terms of the old tree. */
  lemma NodeAfterEdit(root: Level, p: Segs, l: Level, q: Segs)
    requires HasLevel(root, p)
    ensures NodeAt(ReplaceAt(root, p, l), q) ==
            if q == p then Some(Node(l.typ, l.values))
            else if p <= q then
              (if q[|p|] in l.children then NodeAt(l.children[q[|p|]], q[|p| + 1..]) else None)
            else NodeAt(root, q)
    ensures p <= q && q != p ==>
              NodeAt(root, q) == (var l0 := LevelAt(root, p);
                if q[|p|] in l0.children then NodeAt(l0.children[q[|p|]], q[|p| + 1..]) else None)
  {
    NodeAfterReplace(root, p, l, q);
    if p <= q {
      assert q == p + q[|p|..];
      NodeBelow(root, p, q[|p|..]);
      if q != p {
        assert q[|p|..][1..] == q[|p| + 1..];
      } else {
        assert q[|p|..] == [];
      }
    }
  }

  lemma BelowParent(p: Segs, q: Segs)
    requires p != []
    ensures p <= q <==> Init(p) <= q && q != Init(p) && q[|p| - 1] == Last(p)
  {
    assert p == Init(p) + [Last(p)];
    if Init(p) <= q && q != Init(p) && q[|p| - 1] == Last(p) {
      assert q[..|p|] == Init(p) + [Last(p)];
    }
  }

  // ---- Each operation refines its flat counterpart ----

  lemma MissingLevelAgrees(root: Level, p: Segs)
    requires p != [] && !HasLevel(root, Init(p))
    ensures FailsAtMissingLevel(Abs(root), Init(p), Walk(root, Init(p)))
  {
    var q := Init(p);
    var k := FirstMissing(root, q).value;
    forall j: nat | j < k + 1 ensures q[..j] in Abs(root).levels {
      LevelsArePrefixClosed(root, q[..k], j);
      assert q[..k][..j] == q[..j];
    }
    assert IsFirstMissing(Abs(root), q, k + 1);
  }

  lemma AddLevelNodes(root: Level, p: Segs, l: Level, typ: LevelType, q: Segs)
    requires p != [] && HasLevel(root, Init(p)) && !HasLevel(root, p)
    requires l == (var l0 := LevelAt(root, Init(p)); l0.(children := l0.children[Last(p) := NewLevel(typ)]))
    ensures NodeAt(ReplaceAt(root, Init(p), l), q) == if q == p then Some(Node(typ, map[])) else NodeAt(root, q)
  {
    NodeAfterEdit(root, Init(p), l, q);
    BelowParent(p, q);
    if p <= q && p != q {
      assert q[|p|..] != [];
      assert q[..|p|] == p;
      if HasLevel(root, q) { LevelsArePrefixClosed(root, q, |p|); }
    } else if q == p {
      assert q[|p|..] == [];
    }
  }

  lemma AddLevelRefines<V>(ns: Space<V>, p: Segs, typ: LevelType)
    requires p != []
    ensures var (ns', r) := AddLevelAt(ns, p, typ);
            var f, f' := Abs(ns.root), Abs(ns'.root);
            if Init(p) !in f.levels then f' == f && FailsAtMissingLevel(f, Init(p), r)
            else r == Ok(()) && f' == if p in f.levels then f else f.(levels := f.levels[p := typ])
  {
    hide NodeAt, ReplaceAt;
    var root := ns.root;
    if !HasLevel(root, Init(p)) {
      MissingLevelAgrees(root, p);
    } else {
      ChildIsLevel(root, p);
      if !HasLevel(root, p) {
        var l0 := LevelAt(root, Init(p));
        var l := l0.(children := l0.children[Last(p) := NewLevel(typ)]);
        var root' := ReplaceAt(root, Init(p), l);
        forall q ensures NodeAt(root', q) == if q == p then Some(Node(typ, map[])) else NodeAt(root, q) {
          AddLevelNodes(root, p, l, typ, q);
        }
        AbsAfterAddLevel(root, root', p, typ);
      }
    }
  }

  lemma AbsAfterAddLevel(root: Level, root': Level, p: Segs, typ: LevelType)
    requires !HasLevel(root, p)
    requires forall q :: NodeAt(root', q) == if q == p then Some(Node(typ, map[])) else NodeAt(root, q)
    ensures Abs(root') == Abs(root).(levels := Abs(root).levels[p := typ])
  {
    hide NodeAt;
    LevelMapIs(root', LevelMap(root)[p := typ]);
    assert forall q: Segs :: Lookup(root', q) == Lookup(root, q);
    ValueMapIs(root', ValueMap(root));
  }

  lemma RemoveLevelNodes(root: Level, p: Segs, l: Level, q: Segs)
    requires p != [] && HasLevel(root, Init(p))
    requires l == (var l0 := LevelAt(root, Init(p)); l0.(children := l0.children - {Last(p)}))
    ensures NodeAt(ReplaceAt(root, Init(p), l), q) == if p <= q then None else NodeAt(root, q)
  {
    NodeAfterEdit(root, Init(p), l, q);
    BelowParent(p, q);
  }

  lemma RemoveLevelRefines<V>(ns: Space<V>, p: Segs)
    requires p != []
    ensures var (ns', r) := RemoveLevelAt(ns, p);
            var f, f' := Abs(ns.root), Abs(ns'.root);
            if Init(p) !in f.levels then f' == f && FailsAtMissingLevel(f, Init(p), r)
            else if p !in f.levels then f' == f && r == Err(LevelDoesNotExist(PathOf(p)))
            else r == Ok(()) && f' == FlatDrop(f, p)
  {
    hide NodeAt, ReplaceAt;
    var root := ns.root;
    if !HasLevel(root, Init(p)) {
      MissingLevelAgrees(root, p);
    } else {
      ChildIsLevel(root, p);
      if HasLevel(root, p) {
        var l0 := LevelAt(root, Init(p));
        var l := l0.(children := l0.children - {Last(p)});
        var root' := ReplaceAt(root, Init(p), l);
        forall q ensures NodeAt(root', q) == if p <= q then None else NodeAt(root, q) {
          RemoveLevelNodes(root, p, l, q);
        }
        AbsAfterRemoveLevel(root, root', p);
      }
    }
  }

  lemma AbsAfterRemoveLevel(root: Level, root': Level, p: Segs)
    requires forall q :: NodeAt(root', q) == if p <= q then None else NodeAt(root, q)
    ensures Abs(root') == FlatDrop(Abs(root), p)
  {
    hide NodeAt;
    LevelMapIs(root', FlatDrop(Abs(root), p).levels);
    forall q: Segs ensures Lookup(root', q) == if p < q then None else Lookup(root, q) {
      if q != [] { ValueBelow(p, q); }
    }
    ValueMapIs(root', FlatDrop(Abs(root), p).values);
  }

  /** A value lies strictly below a path exactly when its level is at or below it. */
  lemma ValueBelow(p: Segs, q: Segs)
    requires q != []
    ensures p <= Init(q) <==> p < q
  {
    assert q == Init(q) + [Last(q)];
    if p < q { assert q[..|p|] == Init(q)[..|p|]; }
  }

  lemma AddValueRefines<V>(ns: Space<V>, p: Segs, value: V)
    requires p != []
    ensures var (ns', r) := AddValueAt(ns, p, value);
            var f, f' := Abs(ns.root), Abs(ns'.root);
            if Init(p) !in f.levels then f' == f && FailsAtMissingLevel(f, Init(p), r)
            else f' == f.(values := f.values[p := ns.nextHandle])
                 && r == if p in f.values then Err(NameCollision(PathOf(p))) else Ok(ns.nextHandle)
  {
    hide NodeAt, ReplaceAt;
    var root := ns.root;
    if !HasLevel(root, Init(p)) {
      MissingLevelAgrees(root, p);
    } else {
      var l0 := LevelAt(root, Init(p));
      var l := l0.(values := l0.values[Last(p) := ns.nextHandle]);
      var root' := ReplaceAt(root, Init(p), l);
      forall q: Segs
        ensures NodeAt(root', q) == if q == Init(p) then Some(Node(l.typ, l.values)) else NodeAt(root, q)
      {
        NodeAfterEdit(root, Init(p), l, q);
      }
      AbsAfterAddValue(root, root', p, l0, ns.nextHandle);
    }
  }

  lemma AbsAfterAddValue(root: Level, root': Level, p: Segs, l: Level, h: u32)
    requires p != [] && NodeAt(root, Init(p)) == Some(Node(l.typ, l.values))
    requires forall q :: NodeAt(root', q) ==
               if q == Init(p) then Some(Node(l.typ, l.values[Last(p) := h])) else NodeAt(root, q)
    ensures Abs(root') == Abs(root).(values := Abs(root).values[p := h])
  {
    hide NodeAt;
    LevelMapIs(root', LevelMap(root));
    forall q: Segs ensures Lookup(root', q) == if q == p then Some(h) else Lookup(root, q) {
      assert q != [] ==> q == Init(q) + [Last(q)];
      assert p == Init(p) + [Last(p)];
    }
    ValueMapIs(root', ValueMap(root)[p := h]);
  }

  lemma HandleRefines<V>(ns: Space<V>, p: Segs)
    requires p != []
    ensures var f, r := Abs(ns.root), HandleAt(ns, p);
            if Init(p) !in f.levels then FailsAtMissingLevel(f, Init(p), r)
            else r == if p in f.values then Ok(f.values[p]) else Err(ValueDoesNotExist(PathOf(p)))
  {
    if !HasLevel(ns.root, Init(p)) { MissingLevelAgrees(ns.root, p); }
  }

  // ---- Whole runs ----

  datatype Op<V> = AddLevelOp(p: Segs, typ: LevelType) | RemoveLevelOp(p: Segs) | AddValueOp(p: Segs, value: V)

  predicate NonRoot<V>(ops: seq<Op<V>>) { forall i :: 0 <= i < |ops| ==> ops[i].p != [] }

  function Step<V>(ns: Space<V>, op: Op<V>): Space<V>
    requires op.p != []
  {
    match op
    case AddLevelOp(p, typ) => AddLevelAt(ns, p, typ).0
    case RemoveLevelOp(p) => RemoveLevelAt(ns, p).0
    case AddValueOp(p, v) => AddValueAt(ns, p, v).0
  }

  function Run<V>(ns: Space<V>, ops: seq<Op<V>>): Space<V>
    requires NonRoot(ops)
    decreases |ops|
  {
    if ops == [] then ns else Run(Step(ns, ops[0]), ops[1..])
  }

  /** The same operation on the flat model; `h` is the handle a value would get. */
  ghost function FlatStep<V>(f: Flat, op: Op<V>, h: u32): Flat
    requires op.p != []
  {
    if Init(op.p) !in f.levels then f
    else match op
      case AddLevelOp(p, typ) => if p in f.levels then f else f.(levels := f.levels[p := typ])
      case RemoveLevelOp(p) => if p in f.levels then FlatDrop(f, p) else f
      case AddValueOp(p, v) => f.(values := f.values[p := h])
  }

  ghost function FlatRun<V>(f: Flat, ops: seq<Op<V>>, h: u32): Flat
    requires NonRoot(ops)
    decreases |ops|
  {
    if ops == [] then f
    else FlatRun(FlatStep(f, ops[0], h), ops[1..], if ops[0].AddValueOp? then (h + 1) % HANDLE_COUNT else h)
  }

  lemma StepRefines<V>(ns: Space<V>, op: Op<V>)
    requires op.p != []
    ensures Abs(Step(ns, op).root) == FlatStep(Abs(ns.root), op, ns.nextHandle)
  {
    hide AddLevelAt, RemoveLevelAt, AddValueAt, Abs, FlatDrop;
    match op {
      case AddLevelOp(p, typ) => AddLevelRefines(ns, p, typ);
      case RemoveLevelOp(p) => RemoveLevelRefines(ns, p);
      case AddValueOp(p, v) => AddValueRefines(ns, p, v);
    }
  }

  /** A handle is taken by every add of a value, and by nothing else; objects are never dropped. */
  lemma StepCounts<V>(ns: Space<V>, op: Op<V>)
    requires op.p != []
    ensures Step(ns, op).nextHandle == if op.AddValueOp? then (ns.nextHandle + 1) % HANDLE_COUNT else ns.nextHandle
    ensures Step(ns, op).objects == if op.AddValueOp? then ns.objects[ns.nextHandle := op.value] else ns.objects
  {
    hide ReplaceAt, NodeAt;
  }

  /** Over every sequence of operations the level tree is the flat model. */
  lemma {:induction false} RunRefines<V>(ns: Space<V>, ops: seq<Op<V>>)
    requires NonRoot(ops)
    ensures Abs(Run(ns, ops).root) == FlatRun(Abs(ns.root), ops, ns.nextHandle)
    decreases |ops|
  {
    hide Step, FlatStep, Abs;
    if ops != [] {
      StepRefines(ns, ops[0]);
      StepCounts(ns, ops[0]);
      RunRefines(Step(ns, ops[0]), ops[1..]);
    }
  }

  // ---- Handles ----

  /** The handles a run issues, failing adds included. */
  function Issued<V>(ns: Space<V>, ops: seq<Op<V>>): seq<u32>
    requires NonRoot(ops)
    decreases |ops|
  {
    if ops == [] then []
    else (if ops[0].AddValueOp? then [ns.nextHandle] else []) + Issued(Step(ns, ops[0]), ops[1..])
  }

  lemma {:induction false} IssuedInOrder<V>(ns: Space<V>, ops: seq<Op<V>>, k: nat)
    requires NonRoot(ops) && k < |Issued(ns, ops)|
    ensures Issued(ns, ops)[k] == (ns.nextHandle + k) % HANDLE_COUNT
    decreases |ops|
  {
    hide Step;
    StepCounts(ns, ops[0]);
    var ns' := Step(ns, ops[0]);
    if ops[0].AddValueOp? {
      if k > 0 { IssuedInOrder(ns', ops[1..], k - 1); }
    } else {
      IssuedInOrder(ns', ops[1..], k);
    }
  }

  predicate Distinct<T(==)>(s: seq<T>) { forall i, j :: 0 <= i < j < |s| ==> s[i] != s[j] }

  /** How many values a run tries to add. */
  function AddCount<V>(ops: seq<Op<V>>): nat {
    if ops == [] then 0 else (if ops[0].AddValueOp? then 1 else 0) + AddCount(ops[1..])
  }

  lemma {:induction false} EveryAddIssues<V>(ns: Space<V>, ops: seq<Op<V>>)
    requires NonRoot(ops)
    ensures |Issued(ns, ops)| == AddCount(ops)
    decreases |ops|
  {
    hide Step;
    if ops != [] { EveryAddIssues(Step(ns, ops[0]), ops[1..]); }
  }

  /** No handle is issued twice exactly as long as the run has at most 2^32 adds. */
  lemma HandlesAreFreshIff<V>(ns: Space<V>, ops: seq<Op<V>>)
    requires NonRoot(ops)
    ensures Distinct(Issued(ns, ops)) <==> AddCount(ops) <= HANDLE_COUNT
  {
    hide Issued;
    EveryAddIssues(ns, ops);
    var hs := Issued(ns, ops);
    forall k: nat | k < |hs| ensures hs[k] == (ns.nextHandle + k) % HANDLE_COUNT { IssuedInOrder(ns, ops, k); }
    if |hs| > HANDLE_COUNT { assert hs[0] == hs[HANDLE_COUNT]; }
  }

  /** Every handle in the tree has an object. */
  ghost predicate HandlesLive<V>(ns: Space<V>) {
    forall p :: Lookup(ns.root, p).Some? ==> Lookup(ns.root, p).value in ns.objects
  }

  /** Objects are exactly the handles issued so far, and no two tree positions share one. */
  ghost predicate HandlesExact<V>(ns: Space<V>) {
    && HandlesLive(ns)
    && (forall h: u32 :: h in ns.objects <==> h < ns.nextHandle)
    && forall p, q :: Lookup(ns.root, p).Some? && Lookup(ns.root, p) == Lookup(ns.root, q) ==> p == q
  }

  lemma AbsLookup(root: Level, p: Segs)
    ensures Lookup(root, p) == if p in Abs(root).values then Some(Abs(root).values[p]) else None
  {
  }

  /** A step adds at most one entry to the tree, under the handle it took. */
  lemma StepLookup<V>(ns: Space<V>, op: Op<V>, p: Segs)
    requires op.p != []
    ensures var l := Lookup(Step(ns, op).root, p);
            l == None || l == Lookup(ns.root, p) || (op.AddValueOp? && p == op.p && l == Some(ns.nextHandle))
  {
    hide Step, Lookup;
    AbsLookup(ns.root, p);
    AbsLookup(Step(ns, op).root, p);
    StepRefines(ns, op);
  }

  lemma StepKeepsHandles<V>(ns: Space<V>, op: Op<V>)
    requires op.p != [] && HandlesLive(ns)
    ensures HandlesLive(Step(ns, op))
    ensures ns.objects.Keys <= Step(ns, op).objects.Keys
    ensures op.AddValueOp? ==> ns.nextHandle in Step(ns, op).objects
    ensures Step(ns, op).nextHandle == if op.AddValueOp? then (ns.nextHandle + 1) % HANDLE_COUNT else ns.nextHandle
    ensures HandlesExact(ns) && (op.AddValueOp? ==> ns.nextHandle + 1 < HANDLE_COUNT) ==> HandlesExact(Step(ns, op))
  {
    hide Step, Lookup;
    StepCounts(ns, op);
    forall p { StepLookup(ns, op, p); }
  }

  /**
   In every run of fewer than 2^32 adds the objects are exactly the handles issued, live and unshared; and
   in any run at all an issued handle stays valid, even after its level is removed or its add failed.
   */
  lemma {:induction false} RunKeepsHandles<V>(ns: Space<V>, ops: seq<Op<V>>)
    requires NonRoot(ops) && HandlesLive(ns)
    ensures HandlesLive(Run(ns, ops))
    ensures ns.objects.Keys <= Run(ns, ops).objects.Keys
    ensures forall k :: 0 <= k < |Issued(ns, ops)| ==> Issued(ns, ops)[k] in Run(ns, ops).objects
    ensures HandlesExact(ns) && ns.nextHandle + AddCount(ops) < HANDLE_COUNT ==> HandlesExact(Run(ns, ops))
    decreases |ops|
  {
    hide Step;
    if ops != [] {
      StepKeepsHandles(ns, ops[0]);
      var ns' := Step(ns, ops[0]);
      RunKeepsHandles(ns', ops[1..]);
    }
  }

  lemma EmptySpaceIsExact<V>()
    ensures HandlesExact(EmptySpace<V>())
  {
    forall p: Segs ensures Lookup(NewLevel(ScopeLevel), p) == None {}
  }

  /** A new namespace has the root for its only level, of scope type, and no values. */
  lemma EmptySpaceIsFlat<V>()
    ensures Abs(EmptySpace<V>().root) == Flat(imap[[] := ScopeLevel], imap[])
    ensures EmptySpace<V>().objects == map[]
  {
    var root := NewLevel(ScopeLevel);
    forall p: Segs ensures Lookup(root, p) == None {}
    LevelMapIs(root, imap[[] := ScopeLevel]);
    ValueMapIs(root, imap[]);
  }

  // ---- The operations by name ----

  /** A name the namespace accepts as absolute: no root after the first component. */
  predicate IsRooted(name: AmlName) { IsAbsolute(name) && Root !in name[1..] }

  function AddLevel<V>(ns: Space<V>, path: AmlName, typ: LevelType): (r: (Space<V>, Result<()>))
    requires IsRooted(path)
  {
    match Normalize(path)
    case Err(e) => (ns, Err(e))
    case Ok(p) =>
      NormalizeGivesPath(path);
      if p == ROOT_NAME then (ns, Ok(())) else AddLevelAt(ns, SegsOf(p), typ)
  }

  function RemoveLevel<V>(ns: Space<V>, path: AmlName): (r: (Space<V>, Result<()>))
    requires IsRooted(path)
  {
    match Normalize(path)
    case Err(e) => (ns, Err(e))
    case Ok(p) =>
      NormalizeGivesPath(path);
      if p == ROOT_NAME then (ns, Err(TriedToRemoveRootNamespace)) else RemoveLevelAt(ns, SegsOf(p))
  }

  function AddValue<V>(ns: Space<V>, path: AmlName, value: V): (r: (Space<V>, Result<u32>))
    requires IsRooted(path) && Normalize(path) != Ok(ROOT_NAME)
  {
    match Normalize(path)
    case Err(e) => (ns, Err(e))
    case Ok(p) =>
      NormalizeGivesPath(path);
      assert |p| == 1 ==> p == ROOT_NAME;
      AddValueAt(ns, SegsOf(p), value)
  }

  /** The root is always there: adding it does nothing, and it cannot be removed, however it is spelt. */
  lemma RootStays<V>(ns: Space<V>, path: AmlName, typ: LevelType)
    requires IsRooted(path) && Normalize(path) == Ok(ROOT_NAME)
    ensures AddLevel(ns, path, typ) == (ns, Ok(()))
    ensures RemoveLevel(ns, path) == (ns, Err(TriedToRemoveRootNamespace))
  {
  }

  function GetHandle<V>(ns: Space<V>, path: AmlName): (r: Result<u32>)
    requires IsPath(path) && path != ROOT_NAME
  {
    HandleAt(ns, SegsOf(path))
  }

  // ---- Searching upwards ----

  /** From `q` towards the root, the first level that holds `seg`. */
  function SearchUp(root: Level, q: Segs, seg: NameSeg): (r: Result<(AmlName, u32)>)
    decreases |q|
  {
    match Lookup(root, q + [seg])
    case Some(h) => Ok((PathOf(q + [seg]), h))
    case None => if q == [] then Err(ValueDoesNotExist([Segment(seg)])) else SearchUp(root, Init(q), seg)
  }

  /** The `k`-segment prefix of the scope holds the value, and no longer prefix does. */
  predicate IsNearest(root: Level, q: Segs, seg: NameSeg, k: int) {
    && 0 <= k <= |q|
    && Lookup(root, q[..k] + [seg]).Some?
    && forall j :: k < j <= |q| ==> Lookup(root, q[..j] + [seg]).None?
  }

  predicate HeldNowhere(root: Level, q: Segs, seg: NameSeg) {
    forall j :: 0 <= j <= |q| ==> Lookup(root, q[..j] + [seg]).None?
  }

  /** The search finds the value under the longest prefix of the scope that holds it, whatever levels exist. */
  lemma {:induction false} SearchFindsNearest(root: Level, q: Segs, seg: NameSeg)
    ensures forall k :: IsNearest(root, q, seg, k) ==>
              SearchUp(root, q, seg) == Ok((PathOf(q[..k] + [seg]), Lookup(root, q[..k] + [seg]).value))
    ensures SearchUp(root, q, seg).Ok? <==> exists k :: IsNearest(root, q, seg, k)
    ensures SearchUp(root, q, seg) == Err(ValueDoesNotExist([Segment(seg)])) <==> HeldNowhere(root, q, seg)
    decreases |q|
  {
    hide Lookup, PathOf;
    assert q[..|q|] == q;
    if Lookup(root, q + [seg]).Some? {
      assert IsNearest(root, q, seg, |q|);
    } else if q == [] {
      assert forall j :: 0 <= j <= |q| ==> q[..j] + [seg] == q + [seg];
    } else {
      SearchFindsNearest(root, Init(q), seg);
      forall j | 0 <= j < |q| ensures q[..j] == Init(q)[..j] {}
      forall k ensures IsNearest(root, q, seg, k) <==> IsNearest(root, Init(q), seg, k) {}
    }
  }

  /** A name that resolves, if at all, to a path other than the root: walking any other name panics. */
  predicate IsSearchable(path: AmlName, scope: AmlName)
    requires IsAbsolute(scope)
  {
    SearchRulesApply(path) ||
    var r := Resolve(path, scope); r.Ok? ==> IsPath(r.value) && r.value != ROOT_NAME
  }

  function Search<V>(ns: Space<V>, path: AmlName, scope: AmlName): (r: Result<(AmlName, u32)>)
    requires IsPath(scope) && IsSearchable(path, scope)
  {
    if SearchRulesApply(path) then SearchUp(ns.root, SegsOf(scope), path[0].seg)
    else match Resolve(path, scope)
      case Err(e) => Err(e)
      case Ok(name) =>
        match Walk(ns.root, Init(SegsOf(name)))
        case Err(e) => Err(e)
        case Ok(l) =>
          var seg := Last(SegsOf(name));
          if seg in l.values then Ok((name, l.values[seg])) else Err(ValueDoesNotExist(path))
  }

  /** Whatever the search returns is a non-root path at which the tree holds that handle. */
  lemma SearchIsLookup<V>(ns: Space<V>, path: AmlName, scope: AmlName)
    requires IsPath(scope) && IsSearchable(path, scope)
    ensures var r := Search(ns, path, scope);
            r.Ok? ==> IsPath(r.value.0) && r.value.0 != ROOT_NAME
                      && Lookup(ns.root, SegsOf(r.value.0)) == Some(r.value.1)
  {
    if SearchRulesApply(path) {
      var q, seg := SegsOf(scope), path[0].seg;
      SearchFindsNearest(ns.root, q, seg);
      if SearchUp(ns.root, q, seg).Ok? {
        var k :| IsNearest(ns.root, q, seg, k);
        assert |PathOf(q[..k] + [seg])| > 1;
      }
    }
  }
}
