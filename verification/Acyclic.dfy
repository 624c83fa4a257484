/**
 Programs whose calls go down a rank (aml/src/lib.rs:166-234). Each invocation of such a program gives its
 caller back the context, the scope and the levels it found, and adds none but those its blocks name; the
 condition is read off the code and the namespace before the call.
 */
module Acyclic {
  import opened Types
  import opened Names
  import opened Levels
  import opened Namespaces
  import opened Interpreter
  import opened Restoration

  // ---- The methods of a namespace ----

  /** The codes each method may have in the course of a run. */
  type Codes = imap<Segs, iset<seq<Stmt>>>

  predicate HoldsMethod(ns: Space<AmlValue>, q: Segs) {
    var h := Lookup(ns.root, q); h.Some? && h.value in ns.objects && ns.objects[h.value].Method?
  }

  function CodeAt(ns: Space<AmlValue>, q: Segs): seq<Stmt>
    requires HoldsMethod(ns, q)
  {
    ns.objects[Lookup(ns.root, q).value].code
  }

  ghost function CodesOf(ns: Space<AmlValue>): Codes { imap q: Segs | HoldsMethod(ns, q) :: iset{CodeAt(ns, q)} }

  // ---- What a program may do ----

  /**
   What is known of a program: the codes every method it has or will define may have; their ranks, of which
   those below `top` matter; the levels its blocks may open; the codes of methods that arguments and locals may
   hold; and whether it changes what methods there are, by defining them or storing one over another.
   */
  datatype Plan = Plan(
    codes: Codes,
    rank: Segs -> nat,
    top: nat,
    blocks: iset<Segs>,
    held: iset<seq<Stmt>>,
    changes: bool)

  ghost predicate Ranked(plan: Plan, q: Segs) { q in plan.codes && plan.rank(q) < plan.top }

  /** A search for the name from the scope may end at this path, whatever objects there are. */
  ghost predicate MayReach(name: GrammarName, scope: Segs, q: Segs) {
    if SearchRulesApply(name) then exists k :: 0 <= k <= |scope| && q == scope[..k] + [name[0].seg]
    else Resolve(name, PathOf(scope)) == Ok(PathOf(q))
  }

  /** Where a name leads from the scope, if it leads anywhere. */
  function Goal(name: GrammarName, scope: Segs): Option<Segs> {
    match Resolve(name, PathOf(scope))
    case Err(_) => None
    case Ok(path) => GrammarNameResolves(name, PathOf(scope)); Some(SegsOf(path))
  }

  /** Every method the name may stand for ranks below `r`. */
  ghost predicate Below(name: GrammarName, scope: Segs, r: nat, plan: Plan) {
    forall q :: q in plan.codes && MayReach(name, scope, q) ==> plan.rank(q) < r
  }

  /** A store that puts no held method in place of one that may not have its code. */
  ghost predicate Aimed(target: Target, scope: Segs, plan: Plan) {
    target.NameTarget? ==>
      forall q, code :: q in plan.codes && MayReach(target.name, scope, q) && code in plan.held ==>
        plan.changes && code in plan.codes[q]
  }

  ghost predicate ExprBelow(e: Expr, scope: Segs, r: nat, plan: Plan)
    decreases e
  {
    match e
    case Store(value, target) => ExprBelow(value, scope, r, plan) && Aimed(target, scope, plan)
    case Add(left, right, _) => ExprBelow(left, scope, r, plan) && ExprBelow(right, scope, r, plan)
    case LLess(left, right) => ExprBelow(left, scope, r, plan) && ExprBelow(right, scope, r, plan)
    case Call(name, args) => Below(name, scope, r, plan) && ArgsBelow(args, scope, r, plan)
    case _ => true
  }

  ghost predicate ArgsBelow(es: seq<Expr>, scope: Segs, r: nat, plan: Plan)
    decreases es
  {
    es == [] || (ExprBelow(es[0], scope, r, plan) && ArgsBelow(es[1..], scope, r, plan))
  }

  // ---- The scopes code runs in ----

  type Scopes = iset<Segs>

  /** The expression may be evaluated in each of the scopes. */
  ghost predicate ExprFits(e: Expr, from: Scopes, r: nat, plan: Plan) {
    forall x :: x in from ==> ExprBelow(e, x, r, plan)
  }

  /**
   Started in any of the scopes `from`, the statement does what the plan allows and calls only methods that
   rank below `r`; it ends normally in one of `ends`, and breaks or continues in one of `breaks`.
   */
  ghost predicate StmtFlows(s: Stmt, from: Scopes, ends: Scopes, breaks: Scopes, r: nat, plan: Plan)
    decreases s
  {
    match s
    case BreakStmt => from <= breaks
    case ContinueStmt => from <= breaks
    case ReturnStmt(e) => ExprFits(e, from, r, plan)
    case Eval(e) => from <= ends && ExprFits(e, from, r, plan)
    case If(pred, thenBranch, elseBranch) =>
      ExprFits(pred, from, r, plan)
      && CodeFlows(thenBranch, from, ends, breaks, r, plan) && CodeFlows(elseBranch, from, ends, breaks, r, plan)
    case While(pred, body) =>
      exists turn: Scopes ::
        from <= turn && turn <= ends && ExprFits(pred, turn, r, plan) && CodeFlows(body, turn, turn, turn, r, plan)
    case DefMethod(name, _, code) =>
      from <= ends && forall x :: x in from ==> plan.changes && Planned(name, x, code, plan)
    case Scope(name, body) => from <= ends && forall x :: x in from ==> BlockFlows(name, body, x, breaks, r, plan)
    case DefDevice(name, body) => from <= ends && forall x :: x in from ==> BlockFlows(name, body, x, breaks, r, plan)
    case _ => from <= ends
  }

  /** A block on a level the plan allows; at its end the scope is the old one, and after a break it is not. */
  ghost predicate BlockFlows(name: GrammarName, body: seq<Stmt>, scope: Segs, breaks: Scopes, r: nat, plan: Plan)
    decreases body, 1
  {
    match Goal(name, scope)
    case None => true
    case Some(q) =>
      (q == [] || q in plan.blocks) && exists inner: Scopes :: CodeFlows(body, iset{q}, inner, breaks, r, plan)
  }

  ghost predicate CodeFlows(ss: seq<Stmt>, from: Scopes, ends: Scopes, breaks: Scopes, r: nat, plan: Plan)
    decreases ss, 0
  {
    if ss == [] then from <= ends
    else exists mid: Scopes ::
        StmtFlows(ss[0], from, mid, breaks, r, plan) && CodeFlows(ss[1..], mid, ends, breaks, r, plan)
  }

  /** The code of a method, started in the method's own scope. */
  ghost predicate MethodFlows(code: seq<Stmt>, q: Segs, plan: Plan) {
    exists ends: Scopes, breaks: Scopes :: CodeFlows(code, iset{q}, ends, breaks, plan.rank(q), plan)
  }

  /** A definition the plan knows of. */
  ghost predicate Planned(name: GrammarName, scope: Segs, code: seq<Stmt>, plan: Plan) {
    match Goal(name, scope)
    case None => true
    case Some(q) => q != [] ==> q in plan.codes && code in plan.codes[q]
  }

  /** Every ranked method calls only methods that rank below itself, and no block opens its level. */
  ghost predicate Layered(plan: Plan) {
    && (forall q {:trigger Ranked(plan, q)} ::
          Ranked(plan, q) ==> q !in plan.blocks && forall code :: code in plan.codes[q] ==> MethodFlows(code, q, plan))
  }

  // ---- What a run keeps ----

  ghost predicate SameLevels(a: Level, b: Level) { forall p :: HasLevel(a, p) <==> HasLevel(b, p) }

  /** No level went, and those that came are blocks of the plan. */
  ghost predicate Grown(a: Level, b: Level, plan: Plan) {
    && LevelsGrow(a, b)
    && forall p :: HasLevel(b, p) ==> HasLevel(a, p) || p in plan.blocks
  }

  /** The methods are those of the plan, with codes they may have. */
  ghost predicate Within(ns: Space<AmlValue>, codes: Codes) {
    forall q :: HoldsMethod(ns, q) ==> q in codes && CodeAt(ns, q) in codes[q]
  }

  /** No ranked method below the rank has a level. */
  ghost predicate FreeBelow(root: Level, plan: Plan, r: nat) {
    forall q {:trigger HasLevel(root, q)} :: HasLevel(root, q) ==> !(Ranked(plan, q) && plan.rank(q) < r)
  }

  ghost predicate HeldValue(v: AmlValue, plan: Plan) { v.Method? ==> v.code in plan.held }

  ghost predicate HeldCells(s: seq<Option<AmlValue>>, plan: Plan) {
    forall i :: 0 <= i < |s| && s[i].Some? ==> HeldValue(s[i].value, plan)
  }

  /** Locals and arguments hold no methods but those the plan knows of. */
  ghost predicate Holds(m: Option<MethodContext>, plan: Plan) {
    m.Some? ==> HeldCells(m.value.locals, plan) && HeldCells(m.value.args, plan)
  }

  ghost predicate HeldValues(vs: seq<AmlValue>, plan: Plan) { forall i :: 0 <= i < |vs| ==> HeldValue(vs[i], plan) }

  /** There is a handle no object was ever recorded under, so the handle counter has not wrapped. */
  ghost predicate HasRoom(ns: Space<AmlValue>) { exists h: u32 :: h !in ns.objects }

  ghost predicate Roomy(plan: Plan, ns: Space<AmlValue>) { plan.changes ==> HasRoom(ns) }

  predicate Breaks<T>(o: Outcome<T>) { o.Stop? && (o.propagate.PBreak? || o.propagate.PContinue?) }

  /** What every context of the run satisfies. */
  ghost predicate Sound(c: Context, plan: Plan) {
    Within(c.ns, plan.codes) && Holds(c.methodContext, plan) && (plan.changes ==> HandlesExact(c.ns))
  }

  /** The step was clean, returned only what may be held, and, unless it was cut short, left levels standing. */
  ghost predicate Calm<T>(c: Context, r: (Context, Outcome<T>), plan: Plan) {
    && r.0.clean == c.clean
    && (r.1.Stop? && r.1.propagate.PReturn? ==> HeldValue(r.1.propagate.value, plan))
    && (r.1.Done? || r.1.Stop? ==> Grown(c.ns.root, r.0.ns.root, plan) && Sound(r.0, plan))
  }

  /** An expression ends with a value or an error, and leaves the scope as it is. */
  ghost predicate CalmValue(c: Context, r: (Context, Outcome<AmlValue>), plan: Plan) {
    && Calm(c, r, plan)
    && (r.1.Done? ==> HeldValue(r.1.value, plan) && r.0.currentScope == c.currentScope)
    && (r.1.Stop? ==> r.1.propagate.PErr?)
  }

  /** A statement also stays within the scopes it may end or break in. */
  ghost predicate CalmRun(c: Context, r: (Context, Outcome<()>), plan: Plan, ends: Scopes, breaks: Scopes) {
    && Calm(c, r, plan)
    && (r.1.Done? ==> SegsOf(r.0.currentScope) in ends)
    && (Breaks(r.1) ==> SegsOf(r.0.currentScope) in breaks)
  }

  /** Where code of rank `r` runs. */
  ghost predicate Ready(c: Context, plan: Plan, r: nat) {
    Layered(plan) && r <= plan.top && Sound(c, plan) && FreeBelow(c.ns.root, plan, r)
  }

  lemma CalmTrans<T, U>(a: Context, r: (Context, Outcome<T>), s: (Context, Outcome<U>), plan: Plan)
    requires Calm(a, r, plan) && (r.1.Done? || r.1.Stop?) && Calm(r.0, s, plan)
    ensures Calm(a, s, plan)
  {
    hide HasLevel, Sound;
  }

  lemma StillReady<T>(c: Context, r: (Context, Outcome<T>), plan: Plan, n: nat)
    requires Ready(c, plan, n) && Calm(c, r, plan) && (r.1.Done? || r.1.Stop?)
    ensures Ready(r.0, plan, n)
  {
    hide HasLevel, Sound, MethodFlows;
  }

  lemma RoomBefore(a: Context, b: Context, plan: Plan)
    requires Keeps(a, b) && Roomy(plan, b.ns)
    ensures Roomy(plan, a.ns)
  {
    hide HasLevel, HandlesLive;
  }

  lemma ContextIsCalm(c: Context, plan: Plan)
    requires Sound(c, plan)
    ensures Calm(c, (c, Done(())), plan)
  {
    hide HasLevel, Sound;
  }

  // ---- Stores and definitions ----

  lemma StoreIsCalm(c: Context, target: Target, value: AmlValue, plan: Plan)
    requires Sound(c, plan) && HeldValue(value, plan)
    requires value.Method? ==> Aimed(target, SegsOf(c.currentScope), plan)
    ensures CalmValue(c, StoreTo(c, target, value), plan)
  {
    hide Find, Lookup, HasLevel, MayReach, HandlesExact, Holds;
    var c' := StoreTo(c, target, value).0;
    FindStopsWithError(c, target);
    if target.NameTarget? {
      FoundIsReached(c, target.name);
      SameHandles(c.ns, c'.ns);
      if plan.changes { OneHolder(c.ns); }
    } else {
      CellsStayHeld(c, target, value, plan);
    }
  }

  /** While handles are exact, each is held at one path. */
  lemma OneHolder(ns: Space<AmlValue>)
    requires HandlesExact(ns)
    ensures forall p, q :: Lookup(ns.root, p).Some? && Lookup(ns.root, p) == Lookup(ns.root, q) ==> p == q
  {
    hide Lookup;
  }

  lemma SameHandles(a: Space<AmlValue>, b: Space<AmlValue>)
    requires b.root == a.root && b.nextHandle == a.nextHandle
    ensures b.objects.Keys == a.objects.Keys && HandlesExact(a) ==> HandlesExact(b)
  {
    hide Lookup;
  }

  lemma CellsStayHeld(c: Context, target: Target, value: AmlValue, plan: Plan)
    requires !target.NameTarget?
    ensures var c' := StoreTo(c, target, value).0;
            Holds(c.methodContext, plan) && HeldValue(value, plan) ==> Holds(c'.methodContext, plan)
  {
  }

  lemma FindStopsWithError(c: Context, target: Target)
    ensures target.NameTarget? && Find(c, target.name).Stop? ==> Find(c, target.name).propagate.PErr?
  {
    hide Search;
  }

  /** A definition of a planned method, or of any other value. */
  lemma DefinitionIsCalm(c: Context, name: GrammarName, value: AmlValue, plan: Plan)
    requires Sound(c, plan)
    requires value.Method? ==> plan.changes && Planned(name, SegsOf(c.currentScope), value.code, plan)
    requires Roomy(plan, AddResolved(c, name, value).0.ns)
    ensures Calm(c, AddResolved(c, name, value), plan)
    ensures AddResolved(c, name, value).0.currentScope == c.currentScope && !Breaks(AddResolved(c, name, value).1)
  {
    hide AddValue, Resolve, Sound, HasLevel, HandlesExact, Within, Holds;
    PathOfSegs(c.currentScope);
    GrammarNameResolves(name, c.currentScope);
    if Resolve(name, c.currentScope).Ok? && Resolve(name, c.currentScope).value != ROOT_NAME {
      var path := Resolve(name, c.currentScope).value;
      PathOfSegs(path);
      PathIsNormal(path);
      ValueIsCalm(c, path, value, plan);
    } else {
      ContextIsCalm(c, plan);
    }
  }

  lemma ValueIsCalm(c: Context, path: PathName, value: AmlValue, plan: Plan)
    requires Sound(c, plan) && path != ROOT_NAME
    requires value.Method? ==> var p := SegsOf(path); plan.changes && p in plan.codes && value.code in plan.codes[p]
    requires IsRooted(path) && Normalize(path) == Ok(path)
    requires Roomy(plan, AddValue(c.ns, path, value).0)
    ensures var ns := AddValue(c.ns, path, value).0; Grown(c.ns.root, ns.root, plan) && Sound(c.(ns := ns), plan)
  {
    hide Lookup, NodeAt, AddValueAt, Normalize, Holds, HandlesExact;
    var p := SegsOf(path);
    var op := AddValueOp(p, value);
    StepCounts(c.ns, op);
    forall q { StepLookup(c.ns, op, q); }
    AddValueRefines(c.ns, p, value);
    var ns := AddValueAt(c.ns, p, value).0;
    forall q ensures HasLevel(c.ns.root, q) <==> HasLevel(ns.root, q) {
      HasLevelIsFlat(c.ns.root, q);
      HasLevelIsFlat(ns.root, q);
    }
    if plan.changes {
      ExactHandles(c.ns);
      StepKeepsHandles(c.ns, op);
      if c.ns.nextHandle + 1 == HANDLE_COUNT {
        var h: u32 :| h !in ns.objects;
      }
    }
  }

  /** While handles are exact, the next one is new to the tree. */
  lemma ExactHandles(ns: Space<AmlValue>)
    requires HandlesExact(ns)
    ensures HandlesLive(ns) && (forall h: u32 :: h in ns.objects <==> h < ns.nextHandle)
    ensures forall q :: Lookup(ns.root, q) != Some(ns.nextHandle)
  {
    hide Lookup;
  }

  // ---- Levels that come and go ----

  /** Adding a level adds that level at most, and no method. */
  lemma LevelIsAdded(ns: Space<AmlValue>, path: PathName, typ: LevelType)
    ensures IsRooted(path)
    ensures var (ns1, added) := AddLevel(ns, path, typ);
            && ns1.objects == ns.objects && (HandlesExact(ns) ==> HandlesExact(ns1))
            && (forall codes :: Within(ns, codes) ==> Within(ns1, codes))
            && (forall q :: HasLevel(ns1.root, q) ==> HasLevel(ns.root, q) || (q == SegsOf(path) && q != []))
            && LevelsGrow(ns.root, ns1.root) && (added.Ok? ==> HasLevel(ns1.root, SegsOf(path)))
            && (path != ROOT_NAME && HasLevel(ns.root, Init(SegsOf(path))) ==> added.Ok?)
  {
    hide Lookup, NodeAt, AddLevelAt, Normalize, HandlesExact;
    PathIsNormal(path);
    AddLevelKeeps(ns, path, typ);
    if path != ROOT_NAME {
      var p := SegsOf(path);
      var op: Op<AmlValue> := AddLevelOp(p, typ);
      StepCounts(ns, op);
      forall q { StepLookup(ns, op, q); }
      AddLevelRefines(ns, p, typ);
      if HandlesExact(ns) {
        ExactHandles(ns);
        StepKeepsHandles(ns, op);
      }
      var ns1 := AddLevelAt(ns, p, typ).0;
      forall q ensures HasLevel(ns1.root, q) ==> HasLevel(ns.root, q) || q == p {
        HasLevelIsFlat(ns.root, q);
        HasLevelIsFlat(ns1.root, q);
      }
    }
  }

  /** Removing a method's level leaves the levels there were before it, and the plan's blocks outside it. */
  lemma LevelIsRemoved(ns: Space<AmlValue>, path: PathName)
    requires path != ROOT_NAME && HasLevel(ns.root, SegsOf(path))
    ensures IsRooted(path)
    ensures var (ns3, removed) := RemoveLevel(ns, path);
            && removed.Ok? && (HandlesExact(ns) ==> HandlesExact(ns3))
            && (forall codes :: Within(ns, codes) ==> Within(ns3, codes))
            && (forall q :: HasLevel(ns3.root, q) <==> HasLevel(ns.root, q) && !(SegsOf(path) <= q))
  {
    hide Lookup, NodeAt, RemoveLevelAt, Normalize, HandlesExact;
    PathIsNormal(path);
    RemoveLevelDrops(ns, path);
    var op: Op<AmlValue> := RemoveLevelOp(SegsOf(path));
    StepCounts(ns, op);
    forall q { StepLookup(ns, op, q); }
    if HandlesExact(ns) {
      ExactHandles(ns);
      StepKeepsHandles(ns, op);
    }
  }

  lemma ArgsAreHeld(args: seq<AmlValue>, plan: Plan)
    requires |args| <= 7 && HeldValues(args, plan)
    ensures Holds(Some(NewMethodContext(args)), plan)
  {
  }

  // ---- The induction ----

  lemma FoundIsReached(c: Context, name: GrammarName)
    ensures Find(c, name).Done? ==>
              var (path, h) := Find(c, name).value;
              && IsPath(path) && path != ROOT_NAME && Lookup(c.ns.root, SegsOf(path)) == Some(h)
              && MayReach(name, SegsOf(c.currentScope), SegsOf(path))
  {
    hide Lookup, NodeAt, Normalize;
    if Find(c, name).Done? {
      SearchIsLookup(c.ns, name, c.currentScope);
      var q := SegsOf(c.currentScope);
      PathOfSegs(c.currentScope);
      PathOfSegs(Find(c, name).value.0);
      if SearchRulesApply(name) {
        SearchFindsNearest(c.ns.root, q, name[0].seg);
        var k :| IsNearest(c.ns.root, q, name[0].seg, k);
        assert Find(c, name).value.0 == PathOf(q[..k] + [name[0].seg]);
      }
    }
  }

  lemma {:induction false} ExprIsCalm(fuel: nat, e: Expr, c: Context, plan: Plan, r: nat)
    requires Ready(c, plan, r) && ExprBelow(e, SegsOf(c.currentScope), r, plan)
    requires Roomy(plan, EvalExpr(fuel, e, c).0.ns)
    ensures CalmValue(c, EvalExpr(fuel, e, c), plan)
    decreases fuel, e
  {
    hide StoreTo, Find, Invoke, EvalArgs, Ready, Sound, HasLevel, Below, Aimed, Keeps, Roomy;
    ReadyIsSound(c, plan, r);
    match e
    case Store(value, target) =>
      var (c1, v) := EvalExpr(fuel, value, c);
      if v.Done? {
        StoreKeeps(c1, target, v.value);
        RoomBefore(c1, StoreTo(c1, target, v.value).0, plan);
      }
      ExprIsCalm(fuel, value, c, plan, r);
      if v.Done? {
        StoreIsCalm(c1, target, v.value, plan);
        CalmTrans(c, (c1, v), StoreTo(c1, target, v.value), plan);
      }
    case Add(left, right, target) => AddIsCalm(fuel, left, right, target, c, plan, r);
    case LLess(left, right) =>
      var (c1, a) := EvalExpr(fuel, left, c);
      if a.Done? {
        ExprKeeps(fuel, right, c1);
        RoomBefore(c1, EvalExpr(fuel, right, c1).0, plan);
      }
      ExprIsCalm(fuel, left, c, plan, r);
      if a.Done? {
        StillReady(c, (c1, a), plan, r);
        ExprIsCalm(fuel, right, c1, plan, r);
        CalmTrans(c, (c1, a), EvalExpr(fuel, right, c1), plan);
      }
    case Call(name, args) => CallIsCalm(fuel, name, args, c, plan, r);
    case ArgObj(arg) => ReadsEnd(c, plan);
    case LocalObj(local) => ReadsEnd(c, plan);
    case Const(_) =>
  }

  lemma ReadyIsSound(c: Context, plan: Plan, r: nat)
    requires Ready(c, plan, r)
    ensures Layered(plan) && Sound(c, plan) && Holds(c.methodContext, plan)
    ensures Calm(c, (c, Done(())), plan)
  {
    hide HasLevel, MethodFlows;
  }

  lemma {:induction false} AddIsCalm(
    fuel: nat, left: Expr, right: Expr, target: Target, c: Context, plan: Plan, r: nat)
    requires Ready(c, plan, r) && ExprBelow(Add(left, right, target), SegsOf(c.currentScope), r, plan)
    requires Roomy(plan, EvalExpr(fuel, Add(left, right, target), c).0.ns)
    ensures CalmValue(c, EvalExpr(fuel, Add(left, right, target), c), plan)
    decreases fuel, Add(left, right, target), 0
  {
    hide StoreTo, Ready, Sound, HasLevel, Keeps, Roomy;
    var (c1, a) := EvalExpr(fuel, left, c);
    if a.Done? {
      var (c2, b) := EvalExpr(fuel, right, c1);
      var end := EvalExpr(fuel, Add(left, right, target), c);
      ExprKeeps(fuel, right, c1);
      if b.Done? {
        FinishAddKeeps(c2, a.value, b.value, target);
        RoomBefore(c2, end.0, plan);
      }
      RoomBefore(c1, c2, plan);
      ExprIsCalm(fuel, left, c, plan, r);
      StillReady(c, (c1, a), plan, r);
      ExprIsCalm(fuel, right, c1, plan, r);
      CalmTrans(c, (c1, a), (c2, b), plan);
      if b.Done? && AsInteger(a.value).Ok? && AsInteger(b.value).Ok? {
        var sum := Integer(WrappingAdd(AsInteger(a.value).value, AsInteger(b.value).value));
        CalmIsSound(c, (c2, b), plan);
        StoreIsCalm(c2, target, sum, plan);
        CalmTrans(c, (c2, b), StoreTo(c2, target, sum), plan);
      }
    } else {
      ExprIsCalm(fuel, left, c, plan, r);
    }
  }

  lemma CalmIsSound<T>(c: Context, r: (Context, Outcome<T>), plan: Plan)
    requires Calm(c, r, plan) && (r.1.Done? || r.1.Stop?)
    ensures Sound(r.0, plan)
  {
    hide Sound, HasLevel;
  }

  lemma ReadsEnd(c: Context, plan: Plan)
    requires Holds(c.methodContext, plan)
    ensures forall arg: ArgNum :: var o := ReadArg(c, arg);
              (o.Done? && HeldValue(o.value, plan)) || (o.Stop? && o.propagate.PErr?)
    ensures forall local: LocalNum :: var o := ReadLocal(c, local);
              (o.Done? && HeldValue(o.value, plan)) || (o.Stop? && o.propagate.PErr?)
  {
  }

  lemma {:induction false} CallIsCalm(fuel: nat, name: GrammarName, args: seq<Expr>, c: Context, plan: Plan, r: nat)
    requires Ready(c, plan, r) && ExprBelow(Call(name, args), SegsOf(c.currentScope), r, plan)
    requires Roomy(plan, EvalExpr(fuel, Call(name, args), c).0.ns)
    ensures CalmValue(c, EvalExpr(fuel, Call(name, args), c), plan)
    decreases fuel, args, 1
  {
    hide Find, Invoke, EvalArgs, Sound, HasLevel, Lookup, MayReach, Ready, Keeps, Roomy, Layered, FreeBelow, Within;
    hide HandlesExact;
    ReadyIsSound(c, plan, r);
    FoundIsReached(c, name);
    FindStopsWithError(c, NameTarget(name));
    if Find(c, name).Done? {
      var (path, h) := Find(c, name).value;
      if h in c.ns.objects && c.ns.objects[h].Method? {
        var q, n := SegsOf(path), c.ns.objects[h].argCount;
        assert HoldsMethod(c.ns, q);
        ReadyToInvoke(c, plan, r);
        PlannedAt(c.ns, q, plan.codes);
        var (c1, vs) := EvalArgs(fuel, args, n, c);
        if vs.Done? && |vs.value| <= 7 && fuel > 0 {
          InvokeKeeps(fuel - 1, path, vs.value, c1);
          RoomBefore(c1, Invoke(fuel - 1, path, vs.value, c1).0, plan);
        }
        ArgsAreCalm(fuel, args, n, c, plan, r);
        if vs.Done? && |vs.value| <= 7 && fuel > 0 {
          StillReady(c, (c1, vs), plan, r);
          ReadyToInvoke(c1, plan, r);
          InvokeIsCalm(fuel - 1, path, vs.value, c1, plan, r);
          GivenBackIsCalm(c1, Invoke(fuel - 1, path, vs.value, c1), plan);
          CalmTrans(c, (c1, vs), Invoke(fuel - 1, path, vs.value, c1), plan);
        }
      }
    }
  }

  lemma ReadyToInvoke(c: Context, plan: Plan, r: nat)
    requires Ready(c, plan, r)
    ensures Layered(plan) && r <= plan.top && FreeBelow(c.ns.root, plan, r) && Sound(c, plan)
    ensures Within(c.ns, plan.codes) && (plan.changes ==> HandlesExact(c.ns))
  {
  }

  lemma {:induction false} ArgsAreCalm(fuel: nat, es: seq<Expr>, n: nat, c: Context, plan: Plan, r: nat)
    requires Ready(c, plan, r) && ArgsBelow(es, SegsOf(c.currentScope), r, plan)
    requires Roomy(plan, EvalArgs(fuel, es, n, c).0.ns)
    ensures var (c', vs) := EvalArgs(fuel, es, n, c);
            && Calm(c, (c', vs), plan) && (vs.Stop? ==> vs.propagate.PErr?)
            && (vs.Done? ==> HeldValues(vs.value, plan) && c'.currentScope == c.currentScope)
    decreases fuel, es, 0
  {
    hide EvalExpr, Ready, Sound, HasLevel, ExprBelow, Keeps, Roomy;
    ReadyIsSound(c, plan, r);
    if n > 0 && es != [] {
      var (c1, v) := EvalExpr(fuel, es[0], c);
      if v.Done? {
        ArgsKeep(fuel, es[1..], n - 1, c1);
        RoomBefore(c1, EvalArgs(fuel, es[1..], n - 1, c1).0, plan);
      }
      ExprIsCalm(fuel, es[0], c, plan, r);
      if v.Done? {
        StillReady(c, (c1, v), plan, r);
        ArgsAreCalm(fuel, es[1..], n - 1, c1, plan, r);
        CalmTrans(c, (c1, v), EvalArgs(fuel, es[1..], n - 1, c1), plan);
      }
    }
  }

  /** What an invocation gives back. */
  ghost predicate GivesBack(c: Context, r: (Context, Outcome<AmlValue>), plan: Plan) {
    && r.0.clean == c.clean && (r.1.Stop? ==> r.1.propagate.PErr?)
    && (r.1.Done? ==> HeldValue(r.1.value, plan))
    && (r.1.Done? || r.1.Stop? ==>
         && r.0.methodContext == c.methodContext && r.0.currentScope == c.currentScope
         && Grown(c.ns.root, r.0.ns.root, plan)
         && Within(r.0.ns, plan.codes) && (plan.changes ==> HandlesExact(r.0.ns)))
  }

  lemma GivenBackIsCalm(c: Context, out: (Context, Outcome<AmlValue>), plan: Plan)
    requires GivesBack(c, out, plan) && Sound(c, plan)
    ensures CalmValue(c, out, plan)
  {
    hide HasLevel, Within, HandlesExact;
  }

  /** An invocation of a method where none that ranks below `r`, itself included, has a level. */
  lemma {:induction false} InvokeIsCalm(
    fuel: nat, path: PathName, args: seq<AmlValue>, c: Context, plan: Plan, r: nat)
    requires path != ROOT_NAME && |args| <= 7 && HeldValues(args, plan)
    requires Layered(plan) && r <= plan.top && FreeBelow(c.ns.root, plan, r)
    requires Within(c.ns, plan.codes) && (plan.changes ==> HandlesExact(c.ns))
    requires SegsOf(path) in plan.codes && plan.rank(SegsOf(path)) < r
    requires Roomy(plan, Invoke(fuel, path, args, c).0.ns)
    ensures GivesBack(c, Invoke(fuel, path, args, c), plan)
    decreases fuel
  {
    hide ExecList, AddLevel, RemoveLevel, HasLevel, Lookup, CodeFlows, Holds, Roomy, HandlesExact, FreeBelow, Grown;
    hide Within, Ready;
    PathIsNormal(path);
    var p := SegsOf(path);
    HandleIsLookup(c.ns, path);
    GrownSelf(c.ns.root, plan);
    if IsMethodAt(c, path) {
      PlannedAt(c.ns, p, plan.codes);
      EnterIsReady(path, args, c, plan, r);
      var code := CodeAt(c.ns, p);
      var c1 := Enter(path, args, c).(ns := AddLevel(c.ns, path, MethodLocals).0);
      var (c2, out) := ExecList(fuel, code, c1);
      RemoveLevelKeepsHandles(c2.ns, path);
      SameRoom(plan, c2.ns, RemoveLevel(c2.ns, path).0);
      var ends: Scopes, breaks: Scopes :| CodeFlows(code, iset{p}, ends, breaks, plan.rank(p), plan);
      CodeIsCalm(fuel, code, c1, plan, plan.rank(p), iset{p}, ends, breaks);
      if out.Done? || out.Stop? {
        CalmIsSound(c1, (c2, out), plan);
        GrownKeeps(c1.ns.root, c2.ns.root, p, plan);
        LevelIsRemoved(c2.ns, path);
        GrownOutside(c.ns.root, c1.ns.root, c2.ns.root, RemoveLevel(c2.ns, path).0.root, p, plan);
      }
    }
  }

  lemma PlannedAt(ns: Space<AmlValue>, p: Segs, codes: Codes)
    requires Within(ns, codes) && HoldsMethod(ns, p)
    ensures p in codes && CodeAt(ns, p) in codes[p]
  {
  }

  /** A method's body starts where code of its rank may run. */
  lemma EnterIsReady(path: PathName, args: seq<AmlValue>, c: Context, plan: Plan, r: nat)
    requires path != ROOT_NAME && |args| <= 7 && HeldValues(args, plan)
    requires Layered(plan) && r <= plan.top && FreeBelow(c.ns.root, plan, r)
    requires Within(c.ns, plan.codes) && (plan.changes ==> HandlesExact(c.ns))
    requires SegsOf(path) in plan.codes && plan.rank(SegsOf(path)) < r
    requires HoldsMethod(c.ns, SegsOf(path)) && HasLevel(c.ns.root, Init(SegsOf(path)))
    ensures IsRooted(path)
    ensures var p := SegsOf(path);
            var (ns1, added) := AddLevel(c.ns, path, MethodLocals);
            var c1 := Enter(path, args, c).(ns := ns1);
            && added.Ok? && c1.clean == c.clean && Ready(c1, plan, plan.rank(p))
            && MethodFlows(CodeAt(c.ns, p), p, plan)
            && LevelsGrow(c.ns.root, ns1.root) && HasLevel(ns1.root, p) && !HasLevel(c.ns.root, p)
            && (forall q :: HasLevel(ns1.root, q) ==> HasLevel(c.ns.root, q) || (q == p && q != []))
  {
    hide AddLevel, HasLevel, MethodFlows, Holds, HandlesExact, FreeBelow, Within;
    LevelIsAdded(c.ns, path, MethodLocals);
    PlannedAt(c.ns, SegsOf(path), plan.codes);
    ArgsAreHeld(args, plan);
    assert Ranked(plan, SegsOf(path));
    FreeInside(c.ns.root, AddLevel(c.ns, path, MethodLocals).0.root, SegsOf(path), plan, r);
  }

  /** Inside a method, none that ranks below it has a level. */
  lemma FreeInside(root: Level, root1: Level, p: Segs, plan: Plan, r: nat)
    requires FreeBelow(root, plan, r) && Ranked(plan, p) && plan.rank(p) < r
    requires forall q :: HasLevel(root1, q) ==> HasLevel(root, q) || (q == p && q != [])
    ensures FreeBelow(root1, plan, plan.rank(p)) && !HasLevel(root, p)
  {
    hide HasLevel;
  }

  lemma GrownSelf(a: Level, plan: Plan)
    ensures Grown(a, a, plan)
  {
  }

  lemma GrownKeeps(a: Level, b: Level, p: Segs, plan: Plan)
    requires Grown(a, b, plan) && HasLevel(a, p)
    ensures HasLevel(b, p)
  {
  }

  /** What grew inside a method, less the method's level and all below it, grew outside. */
  lemma GrownOutside(a: Level, a1: Level, b1: Level, b: Level, p: Segs, plan: Plan)
    requires LevelsGrow(a, a1) && Grown(a1, b1, plan) && !HasLevel(a, p)
    requires forall q :: HasLevel(a1, q) ==> HasLevel(a, q) || (q == p && q != [])
    requires forall q :: HasLevel(b, q) <==> HasLevel(b1, q) && !(p <= q)
    ensures Grown(a, b, plan)
  {
    hide HasLevel;
    forall q | HasLevel(a, q) ensures HasLevel(b, q) {
      if p <= q { AncestorIsLevel(a, p, q); }
    }
    assert p <= p;
  }

  lemma SameRoom(plan: Plan, a: Space<AmlValue>, b: Space<AmlValue>)
    requires a.objects == b.objects
    ensures Roomy(plan, a) <==> Roomy(plan, b)
  {
  }

  lemma HandleIsLookup(ns: Space<AmlValue>, path: PathName)
    requires path != ROOT_NAME
    ensures GetHandle(ns, path).Ok? ==>
              && Lookup(ns.root, SegsOf(path)) == Some(GetHandle(ns, path).value)
              && HasLevel(ns.root, Init(SegsOf(path)))
  {
    hide NodeAt;
  }

  /** The goal of a name in the current scope is where it resolves to. */
  lemma GoalResolves(name: GrammarName, c: Context)
    ensures match Resolve(name, c.currentScope)
            case Err(_) => Goal(name, SegsOf(c.currentScope)) == None
            case Ok(path) => IsPath(path) && Goal(name, SegsOf(c.currentScope)) == Some(SegsOf(path))
  {
    hide Resolve;
    GrammarNameResolves(name, c.currentScope);
    PathOfSegs(c.currentScope);
  }

  lemma {:induction false} StmtIsCalm(
    fuel: nat, s: Stmt, c: Context, plan: Plan, r: nat, from: Scopes, ends: Scopes, breaks: Scopes)
    requires Ready(c, plan, r) && SegsOf(c.currentScope) in from && StmtFlows(s, from, ends, breaks, r, plan)
    requires Roomy(plan, ExecStmt(fuel, s, c).0.ns)
    ensures CalmRun(c, ExecStmt(fuel, s, c), plan, ends, breaks)
    decreases fuel, s
  {
    hide EvalExpr, AddLevel, AddResolved, Ready, Sound, HasLevel, ExprBelow, Keeps, Roomy, Resolve, Goal, CodeFlows;
    hide ExecList;
    ReadyIsSound(c, plan, r);
    match s
    case Eval(e) => ExprIsCalm(fuel, e, c, plan, r);
    case ReturnStmt(e) => ExprIsCalm(fuel, e, c, plan, r);
    case If(pred, thenBranch, elseBranch) => IfIsCalm(fuel, s, c, plan, r, from, ends, breaks);
    case While(pred, body) =>
      var turn: Scopes :|
        from <= turn && turn <= ends && ExprFits(pred, turn, r, plan) && CodeFlows(body, turn, turn, turn, r, plan);
      WhileIsCalm(fuel, s, c, plan, r, turn);
    case DefName(name, n) => DefinitionIsCalm(c, name, Integer(n), plan);
    case DefMethod(name, argCount, code) => DefinitionIsCalm(c, name, Method(argCount, code), plan);
    case Scope(name, body) =>
      GoalResolves(name, c);
      assert BlockFlows(name, body, SegsOf(c.currentScope), breaks, r, plan);
      if Resolve(name, c.currentScope).Ok? {
        GrammarNameResolves(name, c.currentScope);
        BlockIsCalm(fuel, Resolve(name, c.currentScope).value, ScopeLevel, body, c, plan, r, breaks);
      }
    case DefDevice(name, body) =>
      GoalResolves(name, c);
      AddedResolves(c, name, Device);
      assert BlockFlows(name, body, SegsOf(c.currentScope), breaks, r, plan);
      var (c1, out) := AddResolved(c, name, Device);
      AddResolvedKeeps(c, name, Device);
      if out.Done? {
        GrammarNameResolves(name, c.currentScope);
        var path := Resolve(name, c.currentScope).value;
        BlockKeeps(fuel, path, DeviceLevel, body, c1);
        RoomBefore(c1, ExecStmt(fuel, s, c).0, plan);
        DefinitionIsCalm(c, name, Device, plan);
        StillReady(c, (c1, out), plan, r);
        BlockIsCalm(fuel, path, DeviceLevel, body, c1, plan, r, breaks);
        CalmTrans(c, (c1, out), ExecStmt(fuel, s, c), plan);
      } else {
        DefinitionIsCalm(c, name, Device, plan);
      }
    case _ =>
  }

  lemma {:induction false} IfIsCalm(
    fuel: nat, s: Stmt, c: Context, plan: Plan, r: nat, from: Scopes, ends: Scopes, breaks: Scopes)
    requires s.If? && Ready(c, plan, r) && SegsOf(c.currentScope) in from
    requires StmtFlows(s, from, ends, breaks, r, plan)
    requires Roomy(plan, ExecStmt(fuel, s, c).0.ns)
    ensures CalmRun(c, ExecStmt(fuel, s, c), plan, ends, breaks)
    decreases fuel, s, 0
  {
    hide EvalExpr, ExecList, Ready, Sound, HasLevel, ExprBelow, Keeps, Roomy, CodeFlows;
    var (c1, v) := EvalExpr(fuel, s.pred, c);
    if v.Done? && AsBool(v.value).Ok? {
      var branch := if AsBool(v.value).value then s.thenBranch else s.elseBranch;
      ListKeeps(fuel, branch, c1);
      RoomBefore(c1, ExecList(fuel, branch, c1).0, plan);
      ExprIsCalm(fuel, s.pred, c, plan, r);
      StillReady(c, (c1, v), plan, r);
      CodeIsCalm(fuel, branch, c1, plan, r, from, ends, breaks);
      CalmTrans(c, (c1, v), ExecList(fuel, branch, c1), plan);
    } else {
      ExprIsCalm(fuel, s.pred, c, plan, r);
    }
  }

  /** A loop stays within the scopes its turns start in. */
  lemma {:induction false} WhileIsCalm(fuel: nat, s: Stmt, c: Context, plan: Plan, r: nat, turn: Scopes)
    requires s.While? && Ready(c, plan, r) && SegsOf(c.currentScope) in turn
    requires ExprFits(s.pred, turn, r, plan) && CodeFlows(s.body, turn, turn, turn, r, plan)
    requires Roomy(plan, ExecStmt(fuel, s, c).0.ns)
    ensures CalmRun(c, ExecStmt(fuel, s, c), plan, turn, iset{})
    decreases fuel, s, 0
  {
    hide EvalExpr, ExecList, Ready, Sound, HasLevel, ExprBelow, Keeps, Roomy, CodeFlows;
    var (c1, v) := EvalExpr(fuel, s.pred, c);
    var end := ExecStmt(fuel, s, c);
    if v.Done? && AsBool(v.value) == Ok(true) {
      var (c2, out) := ExecList(fuel, s.body, c1);
      var again := fuel > 0 && (out.Done? || out == Stop(PContinue));
      ListKeeps(fuel, s.body, c1);
      if again {
        StmtKeeps(fuel - 1, s, c2);
        RoomBefore(c2, end.0, plan);
      }
      RoomBefore(c1, c2, plan);
      ExprIsCalm(fuel, s.pred, c, plan, r);
      StillReady(c, (c1, v), plan, r);
      CodeIsCalm(fuel, s.body, c1, plan, r, turn, turn, turn);
      CalmTrans(c, (c1, v), (c2, out), plan);
      if again {
        StillReady(c1, (c2, out), plan, r);
        WhileIsCalm(fuel - 1, s, c2, plan, r, turn);
        CalmTrans(c, (c2, out), end, plan);
      }
    } else {
      ExprIsCalm(fuel, s.pred, c, plan, r);
    }
  }

  lemma BlockKeeps(fuel: nat, path: PathName, typ: LevelType, body: seq<Stmt>, c: Context)
    ensures IsRooted(path)
    ensures var ns := AddLevel(c.ns, path, typ).0;
            && Keeps(c, c.(ns := ns))
            && forall scope: PathName ::
                 Keeps(c, Leave(scope, ExecList(fuel, body, c.(currentScope := path, ns := ns))).0)
  {
    hide AddLevel, ExecList, NodeAt, HandlesLive;
    AddLevelKeeps(c.ns, path, typ);
    var c1 := c.(currentScope := path, ns := AddLevel(c.ns, path, typ).0);
    KeepsGrown(c, c1);
    KeepsGrown(c, c.(ns := c1.ns));
    ListKeeps(fuel, body, c1);
    forall scope: PathName { LeaveKeeps(c, c1, scope, ExecList(fuel, body, c1)); }
  }

  /** A block whose level could not be made. */
  ghost predicate NotRun(c: Context, c1: Context, error: AmlError, plan: Plan) {
    var failed: (Context, Outcome<()>) := (c1, Fail(error));
    Calm(c, failed, plan)
  }

  /** A block on a level of the plan; where the level cannot be made nothing is run. */
  lemma {:induction false} BlockIsCalm(
    fuel: nat, path: PathName, typ: LevelType, body: seq<Stmt>, c: Context, plan: Plan, r: nat, breaks: Scopes)
    requires Ready(c, plan, r) && (SegsOf(path) == [] || SegsOf(path) in plan.blocks)
    requires exists inner: Scopes :: CodeFlows(body, iset{SegsOf(path)}, inner, breaks, r, plan)
    requires IsRooted(path)
    requires AddLevel(c.ns, path, typ).1.Ok? ==>
               Roomy(plan, ExecList(fuel, body, c.(currentScope := path, ns := AddLevel(c.ns, path, typ).0)).0.ns)
    ensures var (ns, added) := AddLevel(c.ns, path, typ);
            && (added.Ok? ==>
                 CalmRun(c, Leave(c.currentScope, ExecList(fuel, body, c.(currentScope := path, ns := ns))), plan,
                         iset{SegsOf(c.currentScope)}, breaks))
            && (added.Err? ==>
                 forall scope: PathName :: NotRun(c, c.(currentScope := scope, ns := ns), added.error, plan))
    decreases fuel, body, 1
  {
    hide AddLevel, ExecList, Holds, HandlesExact, HasLevel, CodeFlows, MethodFlows, HoldsMethod, Roomy;
    LevelIsAdded(c.ns, path, typ);
    var (ns, added) := AddLevel(c.ns, path, typ);
    if added.Ok? {
      var inner: Scopes :| CodeFlows(body, iset{SegsOf(path)}, inner, breaks, r, plan);
      CodeIsCalm(fuel, body, c.(currentScope := path, ns := ns), plan, r, iset{SegsOf(path)}, inner, breaks);
    }
  }

  lemma {:induction false} CodeIsCalm(
    fuel: nat, ss: seq<Stmt>, c: Context, plan: Plan, r: nat, from: Scopes, ends: Scopes, breaks: Scopes)
    requires Ready(c, plan, r) && SegsOf(c.currentScope) in from && CodeFlows(ss, from, ends, breaks, r, plan)
    requires Roomy(plan, ExecList(fuel, ss, c).0.ns)
    ensures CalmRun(c, ExecList(fuel, ss, c), plan, ends, breaks)
    decreases fuel, ss, 0
  {
    hide ExecStmt, Ready, Sound, HasLevel, StmtFlows, Keeps, Roomy;
    ReadyIsSound(c, plan, r);
    if ss != [] {
      var mid: Scopes :|
        StmtFlows(ss[0], from, mid, breaks, r, plan) && CodeFlows(ss[1..], mid, ends, breaks, r, plan);
      var (c1, out) := ExecStmt(fuel, ss[0], c);
      if out.Done? {
        ListKeeps(fuel, ss[1..], c1);
        RoomBefore(c1, ExecList(fuel, ss[1..], c1).0, plan);
      }
      StmtIsCalm(fuel, ss[0], c, plan, r, from, mid, breaks);
      if out.Done? {
        StillReady(c, (c1, out), plan, r);
        CodeIsCalm(fuel, ss[1..], c1, plan, r, mid, ends, breaks);
        CalmTrans(c, (c1, out), ExecList(fuel, ss[1..], c1), plan);
      }
    }
  }

  // ---- The theorem ----

  /**
   Suppose the methods a program has and defines can be ranked so that those up to the invoked one have no
   level and call only methods of lower rank, from every scope their code may run in; that no block opens the
   level of one of them; and that what is stored over a method, or defined, is planned code of its path. Then
   the invocation, with all the calls it leads to, gives back the caller's method context and scope, however it
   ends; no level is lost, and the only new ones are the blocks'. A program that changes what methods there are
   must start from exact handles, and is followed until its 2^32 handles have all been used.
   */
  lemma AcyclicCallsRestore(fuel: nat, path: PathName, args: seq<AmlValue>, c: Context, plan: Plan)
    requires path != ROOT_NAME && |args| <= 7 && HoldsMethod(c.ns, SegsOf(path))
    requires Layered(plan) && Within(c.ns, plan.codes) && plan.rank(SegsOf(path)) < plan.top
    requires FreeBelow(c.ns.root, plan, plan.top)
    requires HeldValues(args, plan)
    requires plan.changes ==> HandlesExact(c.ns)
    ensures var (c', out) := Invoke(fuel, path, args, c);
            (plan.changes ==> HasRoom(c'.ns)) ==>
              && c'.clean == c.clean
              && (out.Done? || out.Stop? ==>
                   && c'.methodContext == c.methodContext && c'.currentScope == c.currentScope
                   && Grown(c.ns.root, c'.ns.root, plan) && Within(c'.ns, plan.codes))
  {
    hide Layered, FreeBelow, Invoke, HasLevel, Lookup, HandlesExact, HasRoom, Grown;
    if Roomy(plan, Invoke(fuel, path, args, c).0.ns) { InvokeIsCalm(fuel, path, args, c, plan, plan.top); }
  }

  /** Code that opens no block adds no level at all: the levels are exactly those there were. */
  lemma NoBlocksSameLevels(a: Level, b: Level, plan: Plan)
    requires Grown(a, b, plan) && forall q :: q !in plan.blocks
    ensures SameLevels(a, b)
  {
    hide HasLevel;
  }

  // ---- Two methods, one calling the other after a block that a break left ----

  const A: NameSeg := [65, 95, 95, 95]
  const B: NameSeg := [66, 95, 95, 95]
  const X: NameSeg := [88, 95, 95, 95]
  const A_PATH: PathName := [Root, Segment(A)]
  const B_NAME: GrammarName := [Segment(B)]
  const X_NAME: GrammarName := [Root, Segment(X)]

  const LOOP_BODY: seq<Stmt> := [Scope(X_NAME, [BreakStmt])]
  const A_LOOP: Stmt := While(Const(1), LOOP_BODY)
  const A_RETURN: Stmt := ReturnStmt(Call(B_NAME, [ArgObj(0)]))

  /** `Method (A, 1) { While (One) { Scope (\X) { Break } } Return (B (Arg0)) }` */
  const A_CODE: seq<Stmt> := [A_LOOP, A_RETURN]

  /** The method `A` beside any method `B` of one argument. */
  function TwoMethods(code: seq<Stmt>): Space<AmlValue> {
    Space(2, map[0 := Method(1, A_CODE), 1 := Method(1, code)], Level(ScopeLevel, map[], map[A := 0, B := 1]))
  }

  /** `A` ranks above `B`, the only block is on the level `X`, and no method is held. */
  ghost function TwoPlan(code: seq<Stmt>): Plan {
    Plan(CodesOf(TwoMethods(code)), q => if q == [A] then 1 else 0, 2, iset{[X]}, iset{}, false)
  }

  lemma TwoPaths(code: seq<Stmt>, q: Segs)
    ensures HoldsMethod(TwoMethods(code), q) <==> q == [A] || q == [B]
    ensures HoldsMethod(TwoMethods(code), [A]) && CodeAt(TwoMethods(code), [A]) == A_CODE
    ensures HoldsMethod(TwoMethods(code), [B]) && CodeAt(TwoMethods(code), [B]) == code
    ensures q != [] ==> !HasLevel(TwoMethods(code).root, q)
  {
    assert Init([A]) == [] && Init([B]) == [] && Last([A]) == A && Last([B]) == B && A != B;
    if |q| == 1 { assert q == [q[0]] && Init(q) == []; }
    if |q| > 1 { assert Init(q)[0] !in TwoMethods(code).root.children; }
  }

  /** From the method's own scope and from the block's, the name `B` reaches no method but `B`. */
  lemma OnlyBIsReached(code: seq<Stmt>, scope: Segs)
    requires scope == [A] || scope == [X]
    ensures Below(B_NAME, scope, 1, TwoPlan(code))
  {
    hide Lookup, CodeAt, HasLevel;
    var plan := TwoPlan(code);
    forall q { TwoPaths(code, q); }
    forall q | q in plan.codes && MayReach(B_NAME, scope, q) ensures plan.rank(q) < 1 {
      var k :| 0 <= k <= |scope| && q == scope[..k] + [B];
      assert q[|q| - 1] == B;
    }
  }

  /** The block is left by its break, in its own scope. */
  lemma BreakFlows(plan: Plan, breaks: Scopes, scope: Segs)
    requires [X] in plan.blocks && [X] in breaks
    ensures BlockFlows(X_NAME, [BreakStmt], scope, breaks, 1, plan)
  {
    hide Goal;
    XIsItself(scope);
    var none: Scopes := iset{};
    assert StmtFlows(BreakStmt, iset{[X]}, none, breaks, 1, plan);
    assert [BreakStmt][1..] == [] && CodeFlows([], none, none, breaks, 1, plan);
    assert CodeFlows([BreakStmt], iset{[X]}, none, breaks, 1, plan);
  }

  lemma LoopFlows(plan: Plan)
    requires [X] in plan.blocks
    ensures StmtFlows(A_LOOP, iset{[A]}, iset{[A], [X]}, iset{}, 1, plan)
  {
    hide BlockFlows;
    var turn: Scopes := iset{[A], [X]};
    forall x ensures BlockFlows(X_NAME, [BreakStmt], x, turn, 1, plan) { BreakFlows(plan, turn, x); }
    assert StmtFlows(LOOP_BODY[0], turn, turn, turn, 1, plan) && CodeFlows([], turn, turn, turn, 1, plan);
    assert LOOP_BODY[1..] == [] && CodeFlows(LOOP_BODY, turn, turn, turn, 1, plan);
    assert ExprFits(Const(1), turn, 1, plan);
  }

  lemma UpperFlows(code: seq<Stmt>)
    ensures MethodFlows(A_CODE, [A], TwoPlan(code))
  {
    hide CodesOf, TwoMethods, MayReach;
    var plan := TwoPlan(code);
    var both: Scopes := iset{[A], [X]};
    LoopFlows(plan);
    OnlyBIsReached(code, [A]);
    OnlyBIsReached(code, [X]);
    ReturnFlows(plan, both);
    assert A_CODE[0] == A_LOOP && A_CODE[1..] == [A_RETURN];
    assert CodeFlows(A_CODE, iset{[A]}, iset{}, iset{}, 1, plan) && plan.rank([A]) == 1;
  }

  lemma ReturnFlows(plan: Plan, from: Scopes)
    requires forall x :: x in from ==> Below(B_NAME, x, 1, plan)
    ensures CodeFlows([A_RETURN], from, iset{}, iset{}, 1, plan)
  {
    hide Below;
    var args := [ArgObj(0)];
    forall x | x in from ensures ExprBelow(Call(B_NAME, args), x, 1, plan) {
      assert args[1..] == [] && ExprBelow(args[0], x, 1, plan) && ArgsBelow(args, x, 1, plan);
    }
    assert StmtFlows(A_RETURN, from, iset{}, iset{}, 1, plan);
    assert [A_RETURN][1..] == [] && CodeFlows([], iset{}, iset{}, iset{}, 1, plan);
  }

  lemma XIsItself(scope: Segs)
    ensures Goal(X_NAME, scope) == Some([X])
  {
    assert X_NAME == PathOf([X]);
  }

  /** If the lower method may call none and opens no block but `X`, calling the upper one restores any caller. */
  lemma CallingCallerRestores(fuel: nat, code: seq<Stmt>, arg: u64, c: Context)
    requires c.ns == TwoMethods(code) && MethodFlows(code, [B], TwoPlan(code))
    ensures A_PATH != ROOT_NAME
    ensures var (c', out) := Invoke(fuel, A_PATH, [Integer(arg)], c);
            out.Done? || out.Stop? ==>
              && c'.methodContext == c.methodContext && c'.currentScope == c.currentScope
              && forall q :: HasLevel(c'.ns.root, q) ==> q == [] || q == [X]
  {
    hide Invoke, HasLevel, Lookup, CodeAt, MethodFlows;
    var plan := TwoPlan(code);
    assert SegsOf(A_PATH) == [A];
    forall q { TwoPaths(code, q); }
    UpperFlows(code);
    assert A != X && B != X;
    assert Layered(plan) by { assert [X] != [A] && [X] != [B]; }
    AcyclicCallsRestore(fuel, A_PATH, [Integer(arg)], c, plan);
  }
}
