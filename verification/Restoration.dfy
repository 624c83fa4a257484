/** What running a program keeps, and what invoking a method gives back (aml/src/lib.rs:166-234). */
module Restoration {
  import opened Types
  import opened Names
  import opened Levels
  import opened Namespaces
  import opened Interpreter
  import opened History

  // ---- What the namespace operations do to levels ----

  ghost predicate LevelsGrow(a: Level, b: Level) { forall p :: HasLevel(a, p) ==> HasLevel(b, p) }

  lemma HasLevelIsFlat(root: Level, p: Segs)
    ensures HasLevel(root, p) <==> p in Abs(root).levels
  {
  }

  lemma AddLevelKeeps<V>(ns: Space<V>, path: PathName, typ: LevelType)
    ensures IsRooted(path)
    ensures var (ns', r) := AddLevel(ns, path, typ);
            && LevelsGrow(ns.root, ns'.root) && (r.Ok? ==> HasLevel(ns'.root, SegsOf(path)))
            && (HandlesLive(ns) ==> HandlesLive(ns')) && ns'.objects == ns.objects
            && ((path == ROOT_NAME || HasLevel(ns.root, Init(SegsOf(path)))) ==> r.Ok?)
  {
    hide NodeAt, AddLevelAt, Lookup;
    PathIsNormal(path);
    var p := SegsOf(path);
    if path == ROOT_NAME {
      assert p == [];
      RootHasLevel(ns.root);
    } else {
      AddLevelRefines(ns, p, typ);
      forall q ensures HasLevel(ns.root, q) <==> q in Abs(ns.root).levels { HasLevelIsFlat(ns.root, q); }
      var ns' := AddLevelAt(ns, p, typ).0;
      StepCounts(ns, AddLevelOp(p, typ));
      forall q ensures HasLevel(ns'.root, q) <==> q in Abs(ns'.root).levels { HasLevelIsFlat(ns'.root, q); }
      if HandlesLive(ns) { StepKeepsHandles(ns, AddLevelOp(p, typ)); }
    }
  }

  lemma RootHasLevel(root: Level)
    ensures HasLevel(root, [])
  {
  }

  lemma AddValueKeeps<V>(ns: Space<V>, path: PathName, value: V)
    requires path != ROOT_NAME
    ensures IsRooted(path) && Normalize(path) == Ok(path)
    ensures var ns' := AddValue(ns, path, value).0;
            && LevelsGrow(ns.root, ns'.root) && (HandlesLive(ns) ==> HandlesLive(ns'))
            && ns.objects.Keys <= ns'.objects.Keys
  {
    hide NodeAt, AddValueAt, Lookup;
    PathIsNormal(path);
    var p := SegsOf(path);
    AddValueRefines(ns, p, value);
    forall q ensures HasLevel(ns.root, q) <==> q in Abs(ns.root).levels { HasLevelIsFlat(ns.root, q); }
    var ns' := AddValueAt(ns, p, value).0;
    StepCounts(ns, AddValueOp(p, value));
    forall q ensures HasLevel(ns'.root, q) <==> q in Abs(ns'.root).levels { HasLevelIsFlat(ns'.root, q); }
    if HandlesLive(ns) { StepKeepsHandles(ns, AddValueOp(p, value)); }
  }

  lemma RemoveLevelDrops<V>(ns: Space<V>, path: PathName)
    requires path != ROOT_NAME && HasLevel(ns.root, SegsOf(path))
    ensures IsRooted(path)
    ensures var (ns', r) := RemoveLevel(ns, path);
            && r == Ok(())
            && (forall q :: HasLevel(ns'.root, q) <==> HasLevel(ns.root, q) && !(SegsOf(path) <= q))
  {
    hide NodeAt, RemoveLevelAt, Lookup;
    PathIsNormal(path);
    var p := SegsOf(path);
    LevelsArePrefixClosed(ns.root, p, |p| - 1);
    RemoveLevelRefines(ns, p);
    forall q ensures HasLevel(ns.root, q) <==> q in Abs(ns.root).levels { HasLevelIsFlat(ns.root, q); }
    var ns' := RemoveLevelAt(ns, p).0;
    forall q ensures HasLevel(ns'.root, q) <==> q in Abs(ns'.root).levels { HasLevelIsFlat(ns'.root, q); }
  }

  lemma RemoveLevelKeepsHandles<V>(ns: Space<V>, path: PathName)
    ensures IsRooted(path) && RemoveLevel(ns, path).0.objects == ns.objects
    ensures HandlesLive(ns) ==> HandlesLive(RemoveLevel(ns, path).0)
  {
    hide NodeAt, RemoveLevelAt, Lookup;
    PathIsNormal(path);
    if path != ROOT_NAME {
      StepCounts(ns, RemoveLevelOp(SegsOf(path)));
      if HandlesLive(ns) { StepKeepsHandles(ns, RemoveLevelOp(SegsOf(path))); }
    }
  }

  // ---- What every step keeps ----

  /** Objects stay, handles stay live, and in a run that is clean to its end no level goes. */
  ghost predicate KeepsNames(c: Context, c': Context) {
    && (HandlesLive(c.ns) ==> HandlesLive(c'.ns)) && c.ns.objects.Keys <= c'.ns.objects.Keys
    && (c'.clean ==> LevelsGrow(c.ns.root, c'.ns.root))
  }

  ghost predicate Keeps(c: Context, c': Context) {
    && (c'.clean ==> c.clean)
    && (c.methodContext.Some? ==> c'.methodContext.Some?)
    && KeepsNames(c, c')
  }

  lemma KeepsTrans(a: Context, b: Context, c: Context)
    requires Keeps(a, b) && Keeps(b, c)
    ensures Keeps(a, c)
  {
    hide HasLevel, HandlesLive;
  }

  lemma KeepsSelf(c: Context)
    ensures Keeps(c, c)
  {
  }

  /** An expression ends with a value or an error, and a clean run leaves scope and method standing. */
  ghost predicate KeepsScope<T>(c: Context, r: (Context, Outcome<T>)) {
    && Keeps(c, r.0)
    && (r.1.Stop? ==> r.1.propagate.PErr?)
    && (r.0.clean && (r.1.Done? || r.1.Stop?) ==>
         r.0.currentScope == c.currentScope && r.0.methodContext.Some? == c.methodContext.Some?)
  }

  lemma StoreKeeps(c: Context, target: Target, value: AmlValue)
    ensures KeepsScope(c, StoreTo(c, target, value))
  {
    hide Search, NodeAt, Lookup;
    var (c', o) := StoreTo(c, target, value);
    assert c'.ns.root == c.ns.root && c.ns.objects.Keys <= c'.ns.objects.Keys;
  }

  lemma FinishAddKeeps(c: Context, l: AmlValue, r: AmlValue, target: Target)
    ensures KeepsScope(c, FinishAdd(c, l, r, target))
  {
    hide StoreTo, KeepsNames;
    KeepsSelf(c);
    var a, b := AsInteger(l), AsInteger(r);
    if a.Ok? && b.Ok? {
      StoreKeeps(c, target, Integer(WrappingAdd(a.value, b.value)));
    }
  }

  lemma KeepsScopeTrans<T, U>(a: Context, r: (Context, Outcome<T>), s: (Context, Outcome<U>))
    requires KeepsScope(a, r) && r.1.Done? && KeepsScope(r.0, s)
    ensures KeepsScope(a, s)
  {
    hide KeepsNames;
    KeepsTrans(a, r.0, s.0);
  }

  lemma {:induction false} ExprKeeps(fuel: nat, e: Expr, c: Context)
    ensures KeepsScope(c, EvalExpr(fuel, e, c))
    decreases fuel, e
  {
    hide StoreTo, FinishAdd, Search, Invoke, EvalArgs, KeepsNames;
    KeepsSelf(c);
    match e {
      case Const(n) =>
      case ArgObj(arg) =>
      case LocalObj(local) =>
      case Store(value, target) =>
        ExprKeeps(fuel, value, c);
        var (c1, v) := EvalExpr(fuel, value, c);
        if v.Done? {
          StoreKeeps(c1, target, v.value);
          KeepsScopeTrans(c, (c1, v), StoreTo(c1, target, v.value));
        }
      case Add(left, right, target) =>
        ExprKeeps(fuel, left, c);
        var (c1, l) := EvalExpr(fuel, left, c);
        if l.Done? {
          ExprKeeps(fuel, right, c1);
          var (c2, r) := EvalExpr(fuel, right, c1);
          KeepsScopeTrans(c, (c1, l), (c2, r));
          if r.Done? {
            FinishAddKeeps(c2, l.value, r.value, target);
            KeepsScopeTrans(c, (c2, r), FinishAdd(c2, l.value, r.value, target));
          }
        }
      case LLess(left, right) =>
        ExprKeeps(fuel, left, c);
        var (c1, l) := EvalExpr(fuel, left, c);
        if l.Done? {
          ExprKeeps(fuel, right, c1);
          KeepsScopeTrans(c, (c1, l), EvalExpr(fuel, right, c1));
        }
      case Call(name, args) =>
        if Find(c, name).Done? {
          var (path, h) := Find(c, name).value;
          if h in c.ns.objects && IsPath(path) && path != ROOT_NAME && c.ns.objects[h].Method? {
            ArgsKeep(fuel, args, c.ns.objects[h].argCount, c);
            var (c1, vs) := EvalArgs(fuel, args, c.ns.objects[h].argCount, c);
            if vs.Done? && |vs.value| <= 7 && fuel > 0 {
              InvokeKeeps(fuel - 1, path, vs.value, c1);
              KeepsScopeTrans(c, (c1, vs), Invoke(fuel - 1, path, vs.value, c1));
            }
          }
        }
    }
  }

  lemma {:induction false} ArgsKeep(fuel: nat, es: seq<Expr>, n: nat, c: Context)
    ensures KeepsScope(c, EvalArgs(fuel, es, n, c))
    decreases fuel, es
  {
    hide EvalExpr, KeepsNames;
    KeepsSelf(c);
    if n > 0 && es != [] {
      ExprKeeps(fuel, es[0], c);
      var (c1, v) := EvalExpr(fuel, es[0], c);
      if v.Done? {
        ArgsKeep(fuel, es[1..], n - 1, c1);
        KeepsScopeTrans(c, (c1, v), EvalArgs(fuel, es[1..], n - 1, c1));
      }
    }
  }

  /**
   Invoking a method. In a clean run the caller's method context and scope are back at the end, however the
   body ended, and the method's own level is gone.
   */
  ghost predicate Restores(path: PathName, c: Context, r: (Context, Outcome<AmlValue>))
    requires path != ROOT_NAME
  {
    r.0.clean && (r.1.Done? || r.1.Stop?) ==>
      && r.0.methodContext == c.methodContext
      && r.0.currentScope == c.currentScope
      && (IsMethodAt(c, path) ==> !HasLevel(r.0.ns.root, SegsOf(path)))
  }

  predicate IsMethodAt(c: Context, path: PathName)
    requires path != ROOT_NAME
  {
    var h := GetHandle(c.ns, path); h.Ok? && h.value in c.ns.objects && c.ns.objects[h.value].Method?
  }

  lemma {:induction false} InvokeKeeps(fuel: nat, path: PathName, args: seq<AmlValue>, c: Context)
    requires path != ROOT_NAME && |args| <= 7
    ensures KeepsScope(c, Invoke(fuel, path, args, c))
    ensures Restores(path, c, Invoke(fuel, path, args, c))
    decreases fuel
  {
    hide ExecList, KeepsNames, HasLevel, AddLevel, RemoveLevel;
    KeepsSelf(c);
    if IsMethodAt(c, path) {
      var p := SegsOf(path);
      AddLevelKeeps(c.ns, path, MethodLocals);
      var (ns1, added) := AddLevel(c.ns, path, MethodLocals);
      assert added.Ok?;
      var c1 := Enter(path, args, c).(ns := ns1);
      KeepsGrown(c, c1);
      var code := c.ns.objects[GetHandle(c.ns, path).value].code;
      ListKeeps(fuel, code, c1);
      var (c2, out) := ExecList(fuel, code, c1);
      KeepsTrans(c, c1, c2);
      if out.Done? || out.Stop? {
        LeaveMethod(path, c, c1, c2, out);
      }
    }
  }

  lemma KeepsGrown(c: Context, c1: Context)
    requires (c1.clean ==> c.clean) && (c.methodContext.Some? ==> c1.methodContext.Some?)
    requires (HandlesLive(c.ns) ==> HandlesLive(c1.ns)) && c.ns.objects.Keys <= c1.ns.objects.Keys
    requires LevelsGrow(c.ns.root, c1.ns.root)
    ensures Keeps(c, c1)
  {
  }

  /** Leaving: in a clean run the level is still there to remove, and nothing the caller had is below it. */
  lemma LeaveMethod(path: PathName, c: Context, c1: Context, c2: Context, out: Outcome<()>)
    requires path != ROOT_NAME && (out.Done? || out.Stop?)
    requires Keeps(c, c1) && Keeps(c1, c2)
    requires c1.clean ==> !HasLevel(c.ns.root, SegsOf(path))
    requires HasLevel(c1.ns.root, SegsOf(path))
    ensures IsRooted(path)
    ensures var (ns3, removed) := RemoveLevel(c2.ns, path);
            && Keeps(c, c2.(ns := ns3))
            && Keeps(c, c2.(ns := ns3, methodContext := c.methodContext, currentScope := c.currentScope))
            && (c2.clean ==> removed.Ok? && !HasLevel(ns3.root, SegsOf(path)))
  {
    hide NodeAt, RemoveLevel;
    var p := SegsOf(path);
    PathIsNormal(path);
    var ns3 := RemoveLevel(c2.ns, path).0;
    RemoveLevelKeepsHandles(c2.ns, path);
    if c2.clean {
      RemoveLevelDrops(c2.ns, path);
      forall q | HasLevel(c.ns.root, q) ensures HasLevel(ns3.root, q) {
        if p <= q { AncestorIsLevel(c.ns.root, p, q); }
      }
      assert p <= p;
    }
  }

  lemma AncestorIsLevel(root: Level, p: Segs, q: Segs)
    requires p <= q && HasLevel(root, q)
    ensures HasLevel(root, p)
  {
    LevelsArePrefixClosed(root, q, |p|);
    assert q[..|p|] == p;
  }

  lemma AddResolvedKeeps(c: Context, name: GrammarName, value: AmlValue)
    ensures Keeps(c, AddResolved(c, name, value).0)
    ensures AddResolved(c, name, value).0.currentScope == c.currentScope
  {
    hide AddValue, KeepsNames;
    KeepsSelf(c);
    GrammarNameResolves(name, c.currentScope);
    if Resolve(name, c.currentScope).Ok? && Resolve(name, c.currentScope).value != ROOT_NAME {
      var path := Resolve(name, c.currentScope).value;
      AddValueKeeps(c.ns, path, value);
      KeepsGrown(c, c.(ns := AddValue(c.ns, path, value).0));
    }
  }

  lemma {:induction false} StmtKeeps(fuel: nat, s: Stmt, c: Context)
    ensures Keeps(c, ExecStmt(fuel, s, c).0)
    decreases fuel, s
  {
    hide EvalExpr, ExecList, AddResolved, AddLevel, Resolve, KeepsNames;
    KeepsSelf(c);
    match s {
      case Noop =>
      case BreakStmt =>
      case ContinueStmt =>
      case Eval(e) => ExprKeeps(fuel, e, c);
      case ReturnStmt(e) => ExprKeeps(fuel, e, c);
      case If(pred, thenBranch, elseBranch) =>
        ExprKeeps(fuel, pred, c);
        var c1 := EvalExpr(fuel, pred, c).0;
        ListKeeps(fuel, thenBranch, c1);
        ListKeeps(fuel, elseBranch, c1);
        KeepsTrans(c, c1, ExecList(fuel, thenBranch, c1).0);
        KeepsTrans(c, c1, ExecList(fuel, elseBranch, c1).0);
      case While(pred, body) =>
        ExprKeeps(fuel, pred, c);
        var c1 := EvalExpr(fuel, pred, c).0;
        ListKeeps(fuel, body, c1);
        var c2 := ExecList(fuel, body, c1).0;
        KeepsTrans(c, c1, c2);
        if fuel > 0 {
          StmtKeeps(fuel - 1, s, c2);
          KeepsTrans(c, c2, ExecStmt(fuel - 1, s, c2).0);
        }
      case DefName(name, n) => AddResolvedKeeps(c, name, Integer(n));
      case DefMethod(name, argCount, code) => AddResolvedKeeps(c, name, Method(argCount, code));
      case Scope(name, body) =>
        GrammarNameResolves(name, c.currentScope);
        if Resolve(name, c.currentScope).Ok? {
          var path := Resolve(name, c.currentScope).value;
          AddLevelKeeps(c.ns, path, ScopeLevel);
          var c1 := c.(currentScope := path, ns := AddLevel(c.ns, path, ScopeLevel).0);
          KeepsGrown(c, c1);
          ListKeeps(fuel, body, c1);
          LeaveKeeps(c, c1, c.currentScope, ExecList(fuel, body, c1));
        }
      case DefDevice(name, body) =>
        AddResolvedKeeps(c, name, Device);
        var (c1, r) := AddResolved(c, name, Device);
        if r.Done? {
          GrammarNameResolves(name, c.currentScope);
          AddedResolves(c, name, Device);
          var path := Resolve(name, c.currentScope).value;
          AddLevelKeeps(c1.ns, path, DeviceLevel);
          var ns := AddLevel(c1.ns, path, DeviceLevel).0;
          KeepsGrown(c1, c1.(ns := ns));
          KeepsTrans(c, c1, c1.(ns := ns));
          var c2 := c1.(currentScope := path, ns := ns);
          KeepsGrown(c1, c2);
          KeepsTrans(c, c1, c2);
          ListKeeps(fuel, body, c2);
          LeaveKeeps(c, c2, c.currentScope, ExecList(fuel, body, c2));
        }
    }
  }

  lemma LeaveKeeps(c: Context, c1: Context, scope: PathName, r: (Context, Outcome<()>))
    requires Keeps(c, c1) && Keeps(c1, r.0)
    ensures Keeps(c, Leave(scope, r).0)
  {
    KeepsTrans(c, c1, r.0);
  }

  lemma {:induction false} ListKeeps(fuel: nat, ss: seq<Stmt>, c: Context)
    ensures Keeps(c, ExecList(fuel, ss, c).0)
    decreases fuel, ss
  {
    hide ExecStmt, KeepsNames;
    KeepsSelf(c);
    if ss != [] {
      StmtKeeps(fuel, ss[0], c);
      var (c1, out) := ExecStmt(fuel, ss[0], c);
      if out.Done? {
        ListKeeps(fuel, ss[1..], c1);
        KeepsTrans(c, c1, ExecList(fuel, ss[1..], c1).0);
      }
    }
  }

  /** No method invoked by the call, itself included, has a level at its path when it is invoked. */
  predicate MeetsNoLevel(fuel: nat, path: PathName, args: seq<AmlValue>, c: Context)
    requires path != ROOT_NAME && |args| <= 7
  {
    Invoke(fuel, path, args, c.(clean := true)).0.clean
  }

  /**
   For every program, every method and every context it is invoked in: when no method the call invokes has a
   level at call time, the invocation, nested calls and all, gives the caller's context and scope back and
   removes its own level, whether the body fell through, returned, failed, or leaked a break or continue; what
   it yields is a value or an error.
   */
  lemma InvokeRestores(fuel: nat, path: PathName, args: seq<AmlValue>, c: Context)
    requires path != ROOT_NAME && |args| <= 7
    ensures var (c', r) := Invoke(fuel, path, args, c);
            && (HandlesLive(c.ns) ==> HandlesLive(c'.ns)) && c.ns.objects.Keys <= c'.ns.objects.Keys
            && (MeetsNoLevel(fuel, path, args, c) && (r.Done? || r.Stop?) ==>
                 && c'.methodContext == c.methodContext && c'.currentScope == c.currentScope
                 && LevelsGrow(c.ns.root, c'.ns.root)
                 && (IsMethodAt(c, path) ==> !HasLevel(c'.ns.root, SegsOf(path))))
            && (r.Stop? ==> r.propagate.PErr?)
  {
    hide Invoke, HasLevel, HandlesLive;
    var d := c.(clean := true);
    InvokeIgnoresHistory(fuel, path, args, c, d);
    InvokeKeeps(fuel, path, args, d);
  }

  /**
   What one invocation does, for any caller, any body and any end of it. The context is given back exactly if
   the method's level is still there when the body ends; otherwise the invocation fails where the body left it.
   */
  lemma RestoresIffLevelSurvives(fuel: nat, path: PathName, args: seq<AmlValue>, c: Context)
    requires path != ROOT_NAME && |args| <= 7 && IsMethodAt(c, path)
    ensures IsRooted(path)
    ensures var code := c.ns.objects[GetHandle(c.ns, path).value].code;
            var c1 := Enter(path, args, c).(ns := AddLevel(c.ns, path, MethodLocals).0);
            var (c2, out) := ExecList(fuel, code, c1);
            var (c', r) := Invoke(fuel, path, args, c);
            var survives := HasLevel(c2.ns.root, SegsOf(path));
            && HasLevel(c1.ns.root, SegsOf(path)) && c1.currentScope == path
            && (forall i: ArgNum :: ReadArg(c1, i) == if i < |args| then Done(args[i]) else Fail(InvalidArgAccess(i)))
            && (forall j: LocalNum :: ReadLocal(c1, j) == Fail(InvalidLocalAccess(j)))
            && (out.Panic? || out.Timeout? ==> c' == c2 && (r.Panic? <==> out.Panic?) && (r.Timeout? <==> out.Timeout?))
            && (out.Done? || out.Stop? ==>
                 if survives then
                   && (out.Done? ==> r == Done(Integer(0)))
                   && (forall v :: out == Stop(PReturn(v)) ==> r == Done(v))
                   && (out == Stop(PBreak) ==> r == Fail(BreakInInvalidPosition))
                   && (out == Stop(PContinue) ==> r == Fail(ContinueInInvalidPosition))
                   && (forall e :: out == Stop(PErr(e)) ==> r == Fail(e))
                   && c'.methodContext == c.methodContext && c'.currentScope == c.currentScope
                   && (forall q :: HasLevel(c'.ns.root, q) <==> HasLevel(c2.ns.root, q) && !(SegsOf(path) <= q))
                 else c' == c2 && c'.methodContext.Some? && r.Stop? && r.propagate.PErr?)
            && (c.methodContext == None && (out.Done? || out.Stop?) ==>
                 (c'.methodContext == c.methodContext && c'.currentScope == c.currentScope <==> survives))
  {
    hide ExecList, KeepsNames, NodeAt, AddLevel, RemoveLevel;
    PathIsNormal(path);
    AddLevelKeeps(c.ns, path, MethodLocals);
    var c1 := Enter(path, args, c).(ns := AddLevel(c.ns, path, MethodLocals).0);
    var code := c.ns.objects[GetHandle(c.ns, path).value].code;
    ListKeeps(fuel, code, c1);
    var c2 := ExecList(fuel, code, c1).0;
    if HasLevel(c2.ns.root, SegsOf(path)) {
      RemoveLevelDrops(c2.ns, path);
    } else {
      RemoveLevelFails(c2.ns, path);
    }
  }

  lemma RemoveLevelFails<V>(ns: Space<V>, path: PathName)
    requires path != ROOT_NAME && !HasLevel(ns.root, SegsOf(path))
    ensures IsRooted(path)
    ensures RemoveLevel(ns, path).0 == ns && RemoveLevel(ns, path).1.Err?
  {
    hide NodeAt;
    PathIsNormal(path);
    if HasLevel(ns.root, Init(SegsOf(path))) { ChildIsLevel(ns.root, SegsOf(path)); }
  }

  // ---- Code without calls ----

  predicate ExprCallFree(e: Expr) {
    match e
    case Store(value, _) => ExprCallFree(value)
    case Add(left, right, _) => ExprCallFree(left) && ExprCallFree(right)
    case LLess(left, right) => ExprCallFree(left) && ExprCallFree(right)
    case Call(_, _) => false
    case _ => true
  }

  predicate StmtCallFree(s: Stmt)
    decreases s
  {
    match s
    case Eval(e) => ExprCallFree(e)
    case ReturnStmt(e) => ExprCallFree(e)
    case If(pred, thenBranch, elseBranch) => ExprCallFree(pred) && CallFree(thenBranch) && CallFree(elseBranch)
    case While(pred, body) => ExprCallFree(pred) && CallFree(body)
    case Scope(_, body) => CallFree(body)
    case DefDevice(_, body) => CallFree(body)
    case _ => true
  }

  /** No statement evaluates a call; the bodies of methods that are only defined may. */
  predicate CallFree(ss: seq<Stmt>)
    decreases ss
  {
    ss == [] || (StmtCallFree(ss[0]) && CallFree(ss[1..]))
  }

  /** The step is as clean as what came before, and no level is lost. */
  ghost predicate OnlyAdds(c: Context, c': Context) { c'.clean == c.clean && LevelsGrow(c.ns.root, c'.ns.root) }

  lemma {:induction false} CallFreeExprAdds(fuel: nat, e: Expr, c: Context)
    requires ExprCallFree(e)
    ensures OnlyAdds(c, EvalExpr(fuel, e, c).0)
    decreases e
  {
    hide StoreTo, NodeAt;
    match e
    case Store(value, target) =>
      CallFreeExprAdds(fuel, value, c);
      var (c1, v) := EvalExpr(fuel, value, c);
      if v.Done? { StoreAdds(c1, target, v.value); }
    case Add(left, right, target) =>
      CallFreeExprAdds(fuel, left, c);
      var (c1, l) := EvalExpr(fuel, left, c);
      if l.Done? {
        CallFreeExprAdds(fuel, right, c1);
        var (c2, r) := EvalExpr(fuel, right, c1);
        if r.Done? && AsInteger(l.value).Ok? && AsInteger(r.value).Ok? {
          StoreAdds(c2, target, Integer(WrappingAdd(AsInteger(l.value).value, AsInteger(r.value).value)));
        }
      }
    case LLess(left, right) =>
      CallFreeExprAdds(fuel, left, c);
      var (c1, l) := EvalExpr(fuel, left, c);
      if l.Done? { CallFreeExprAdds(fuel, right, c1); }
    case _ =>
  }

  lemma StoreAdds(c: Context, target: Target, value: AmlValue)
    ensures OnlyAdds(c, StoreTo(c, target, value).0)
    ensures StoreTo(c, target, value).0.ns.root == c.ns.root
  {
    hide NodeAt;
  }

  lemma AddResolvedAdds(c: Context, name: GrammarName, value: AmlValue)
    ensures OnlyAdds(c, AddResolved(c, name, value).0)
  {
    hide AddValue, NodeAt, Resolve;
    GrammarNameResolves(name, c.currentScope);
    if Resolve(name, c.currentScope).Ok? && Resolve(name, c.currentScope).value != ROOT_NAME {
      AddValueKeeps(c.ns, Resolve(name, c.currentScope).value, value);
    }
  }

  lemma {:induction false} CallFreeStmtAdds(fuel: nat, s: Stmt, c: Context)
    requires StmtCallFree(s)
    ensures OnlyAdds(c, ExecStmt(fuel, s, c).0)
    decreases fuel, s
  {
    hide EvalExpr, AddLevel, AddResolved, NodeAt, Resolve;
    match s
    case Eval(e) => CallFreeExprAdds(fuel, e, c);
    case ReturnStmt(e) => CallFreeExprAdds(fuel, e, c);
    case If(pred, thenBranch, elseBranch) =>
      CallFreeExprAdds(fuel, pred, c);
      var c1 := EvalExpr(fuel, pred, c).0;
      CallFreeAdds(fuel, thenBranch, c1);
      CallFreeAdds(fuel, elseBranch, c1);
    case While(pred, body) =>
      CallFreeExprAdds(fuel, pred, c);
      var c1 := EvalExpr(fuel, pred, c).0;
      CallFreeAdds(fuel, body, c1);
      if fuel > 0 { CallFreeStmtAdds(fuel - 1, s, ExecList(fuel, body, c1).0); }
    case DefName(name, n) => AddResolvedAdds(c, name, Integer(n));
    case DefMethod(name, argCount, code) => AddResolvedAdds(c, name, Method(argCount, code));
    case Scope(name, body) =>
      if Resolve(name, c.currentScope).Ok? {
        GrammarNameResolves(name, c.currentScope);
        var path := Resolve(name, c.currentScope).value;
        AddLevelKeeps(c.ns, path, ScopeLevel);
        CallFreeAdds(fuel, body, c.(currentScope := path, ns := AddLevel(c.ns, path, ScopeLevel).0));
      }
    case DefDevice(name, body) =>
      AddResolvedAdds(c, name, Device);
      AddedResolves(c, name, Device);
      var (c1, r) := AddResolved(c, name, Device);
      if r.Done? {
        GrammarNameResolves(name, c.currentScope);
        var path := Resolve(name, c.currentScope).value;
        AddLevelKeeps(c1.ns, path, DeviceLevel);
        CallFreeAdds(fuel, body, c1.(currentScope := path, ns := AddLevel(c1.ns, path, DeviceLevel).0));
      }
    case _ =>
  }

  lemma {:induction false} CallFreeAdds(fuel: nat, ss: seq<Stmt>, c: Context)
    requires CallFree(ss)
    ensures OnlyAdds(c, ExecList(fuel, ss, c).0)
    decreases fuel, ss
  {
    hide ExecStmt, NodeAt;
    if ss != [] {
      CallFreeStmtAdds(fuel, ss[0], c);
      var (c1, out) := ExecStmt(fuel, ss[0], c);
      if out.Done? { CallFreeAdds(fuel, ss[1..], c1); }
    }
  }

  /** A method whose code makes no call gives its caller everything back, whatever the caller and the namespace. */
  lemma CallFreeMethodRestores(fuel: nat, path: PathName, args: seq<AmlValue>, c: Context)
    requires path != ROOT_NAME && |args| <= 7 && IsMethodAt(c, path)
    requires CallFree(c.ns.objects[GetHandle(c.ns, path).value].code)
    ensures var (c', r) := Invoke(fuel, path, args, c);
            r.Done? || r.Stop? ==>
              && c'.methodContext == c.methodContext && c'.currentScope == c.currentScope
              && !HasLevel(c'.ns.root, SegsOf(path))
              && (forall q :: HasLevel(c.ns.root, q) && !(SegsOf(path) <= q) ==> HasLevel(c'.ns.root, q))
              && (c'.clean <==> c.clean && !HasLevel(c.ns.root, SegsOf(path)))
  {
    hide ExecList, NodeAt, AddLevel, RemoveLevel;
    RestoresIffLevelSurvives(fuel, path, args, c);
    AddLevelKeeps(c.ns, path, MethodLocals);
    CallFreeAdds(fuel, c.ns.objects[GetHandle(c.ns, path).value].code,
                 Enter(path, args, c).(ns := AddLevel(c.ns, path, MethodLocals).0));
  }
}
