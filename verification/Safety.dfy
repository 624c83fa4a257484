/** Programs that never panic (aml/src/lib.rs:166-387, aml/src/namespace.rs:149-312). */
module Safety {
  import opened Types
  import opened Names
  import opened Levels
  import opened Namespaces
  import opened Interpreter
  import opened Restoration

  // ---- Where one step panics ----

  /** In a namespace whose handles are live, the only name whose search panics is one that resolves to the root. */
  lemma FindPanicsIff(c: Context, name: GrammarName)
    ensures Find(c, name) == Panic <==> Resolve(name, c.currentScope) == Ok(ROOT_NAME)
    ensures !Find(c, name).Timeout?
    ensures Find(c, name).Done? && HandlesLive(c.ns) ==>
              var (path, h) := Find(c, name).value; IsPath(path) && path != ROOT_NAME && h in c.ns.objects
  {
    hide NodeAt, Normalize, SearchUp;
    GrammarNameResolves(name, c.currentScope);
    if IsSearchable(name, c.currentScope) { SearchIsLookup(c.ns, name, c.currentScope); }
    if SearchRulesApply(name) {
      ParentInvertsChild(c.currentScope, name[0].seg);
      assert name == [Segment(name[0].seg)];
      assert |c.currentScope + name| > 1;
    }
  }

  lemma StorePanicsIff(c: Context, target: Target, value: AmlValue)
    requires HandlesLive(c.ns)
    ensures StoreTo(c, target, value).1 == Panic <==>
            target.DebugTarget? || (target.NameTarget? && Resolve(target.name, c.currentScope) == Ok(ROOT_NAME))
    ensures !StoreTo(c, target, value).1.Timeout?
  {
    hide Find, HandlesLive, Resolve;
    if target.NameTarget? { FindPanicsIff(c, target.name); }
  }

  lemma DefinitionPanicsIff(c: Context, name: GrammarName, value: AmlValue)
    ensures AddResolved(c, name, value).1 == Panic <==> Resolve(name, c.currentScope) == Ok(ROOT_NAME)
  {
    hide AddValue, Normalize;
  }

  // ---- Safe programs ----

  /** A name that ends in a segment, so that no scope makes it the root. */
  predicate SafeName(name: GrammarName) { name[|name| - 1].Segment? }

  lemma {:induction false} FoldEndsInSegment(acc: AmlName, s: AmlName)
    requires s != [] && s[|s| - 1].Segment?
    ensures FoldName(acc, s).Some? ==> FoldName(acc, s).value != ROOT_NAME
    decreases |s|
  {
    if |s| == 1 {
      assert s[1..] == [] && FoldName(acc + [s[0]], []) == Some(acc + [s[0]]);
      assert (acc + [s[0]])[|acc|] == s[0];
    } else if s[0] != Prefix {
      FoldEndsInSegment(acc + [s[0]], s[1..]);
    } else if |acc| > 0 {
      FoldEndsInSegment(acc[..|acc| - 1], s[1..]);
    }
  }

  lemma SafeNameResolves(name: GrammarName, scope: PathName)
    requires SafeName(name)
    ensures Resolve(name, scope) != Ok(ROOT_NAME)
  {
    if !IsAbsolute(name) {
      var s := scope + name;
      NormalizeIsFold(s);
      FoldEndsInSegment([], s);
    }
  }

  predicate SafeTarget(t: Target) { !t.DebugTarget? && (t.NameTarget? ==> SafeName(t.name)) }

  predicate SafeExpr(e: Expr)
    decreases e
  {
    match e
    case Store(value, target) => SafeExpr(value) && SafeTarget(target)
    case Add(left, right, target) => SafeExpr(left) && SafeExpr(right) && SafeTarget(target)
    case LLess(left, right) => SafeExpr(left) && SafeExpr(right)
    case Call(name, args) => SafeName(name) && SafeArgs(args)
    case _ => true
  }

  predicate SafeArgs(es: seq<Expr>)
    decreases es
  {
    es == [] || (SafeExpr(es[0]) && SafeArgs(es[1..]))
  }

  predicate SafeStmt(s: Stmt)
    decreases s
  {
    match s
    case Eval(e) => SafeExpr(e)
    case ReturnStmt(e) => SafeExpr(e)
    case If(pred, thenBranch, elseBranch) => SafeExpr(pred) && SafeCode(thenBranch) && SafeCode(elseBranch)
    case While(pred, body) => SafeExpr(pred) && SafeCode(body)
    case DefName(name, _) => SafeName(name)
    case DefMethod(name, _, code) => SafeName(name) && SafeCode(code)
    case Scope(_, body) => SafeCode(body)
    case DefDevice(name, body) => SafeName(name) && SafeCode(body)
    case _ => true
  }

  /** No store to the debug object, and every name searched for or defined ends in a segment. */
  predicate SafeCode(ss: seq<Stmt>)
    decreases ss
  {
    ss == [] || (SafeStmt(ss[0]) && SafeCode(ss[1..]))
  }

  predicate SafeValue(v: AmlValue) { v.Method? ==> SafeCode(v.code) }

  predicate SafeCells(s: seq<Option<AmlValue>>) { forall i :: 0 <= i < |s| && s[i].Some? ==> SafeValue(s[i].value) }

  ghost predicate SafeObjects(ns: Space<AmlValue>) { forall h :: h in ns.objects ==> SafeValue(ns.objects[h]) }

  /** Handles are live, and every method that can be reached, wherever it is held, has safe code. */
  ghost predicate SafeContext(c: Context) {
    && HandlesLive(c.ns) && SafeObjects(c.ns)
    && (c.methodContext.Some? ==> SafeCells(c.methodContext.value.locals) && SafeCells(c.methodContext.value.args))
  }

  predicate SafeEnd<T>(o: Outcome<T>) {
    !o.Panic? && (o.Stop? && o.propagate.PReturn? ==> SafeValue(o.propagate.value))
  }

  ghost predicate SafeResult(r: (Context, Outcome<AmlValue>)) {
    SafeEnd(r.1) && (r.1.Done? || r.1.Stop? ==> SafeContext(r.0)) && (r.1.Done? ==> SafeValue(r.1.value))
  }

  ghost predicate SafeRun(r: (Context, Outcome<()>)) {
    SafeEnd(r.1) && (r.1.Done? || r.1.Stop? ==> SafeContext(r.0))
  }

  // ---- Safe programs do not panic ----

  lemma StoreIsSafe(c: Context, target: Target, value: AmlValue)
    requires SafeContext(c) && SafeTarget(target) && SafeValue(value)
    ensures SafeResult(StoreTo(c, target, value))
  {
    hide Find, HandlesLive, SafeCode, Resolve;
    StorePanicsIff(c, target, value);
    StoreKeeps(c, target, value);
    if target.NameTarget? { SafeNameResolves(target.name, c.currentScope); }
  }

  lemma DefinitionIsSafe(c: Context, name: GrammarName, value: AmlValue)
    requires SafeContext(c) && SafeName(name) && SafeValue(value)
    ensures SafeRun(AddResolved(c, name, value))
  {
    hide HandlesLive, SafeCode, Resolve, NodeAt, ReplaceAt;
    DefinitionPanicsIff(c, name, value);
    SafeNameResolves(name, c.currentScope);
    AddResolvedKeeps(c, name, value);
    GrammarNameResolves(name, c.currentScope);
  }

  /** Adding or removing a level touches no object. */
  lemma LevelKeepsSafe(c: Context, path: PathName, typ: LevelType)
    requires SafeContext(c)
    ensures IsRooted(path)
    ensures SafeContext(c.(ns := AddLevel(c.ns, path, typ).0)) && SafeContext(c.(ns := RemoveLevel(c.ns, path).0))
  {
    hide HandlesLive, SafeCode, NodeAt, ReplaceAt, Normalize;
    AddLevelKeeps(c.ns, path, typ);
    RemoveLevelKeepsHandles(c.ns, path);
  }

  lemma {:induction false} ExprIsSafe(fuel: nat, e: Expr, c: Context)
    requires SafeContext(c) && SafeExpr(e)
    ensures SafeResult(EvalExpr(fuel, e, c))
    decreases fuel, e
  {
    hide SafeContext, StoreTo, Find, Invoke, EvalArgs, SafeCode;
    match e
    case Store(value, target) =>
      ExprIsSafe(fuel, value, c);
      var (c1, v) := EvalExpr(fuel, value, c);
      if v.Done? { StoreIsSafe(c1, target, v.value); }
    case Add(left, right, target) =>
      ExprIsSafe(fuel, left, c);
      var (c1, l) := EvalExpr(fuel, left, c);
      if l.Done? {
        ExprIsSafe(fuel, right, c1);
        var (c2, r) := EvalExpr(fuel, right, c1);
        if r.Done? && AsInteger(l.value).Ok? && AsInteger(r.value).Ok? {
          StoreIsSafe(c2, target, Integer(WrappingAdd(AsInteger(l.value).value, AsInteger(r.value).value)));
        }
      }
    case LLess(left, right) =>
      ExprIsSafe(fuel, left, c);
      var (c1, l) := EvalExpr(fuel, left, c);
      if l.Done? { ExprIsSafe(fuel, right, c1); }
    case Call(name, args) => CallIsSafe(fuel, name, args, c);
    case ArgObj(arg) => assert SafeResult((c, ReadArg(c, arg))) by { ReadIsSafe(c); }
    case LocalObj(local) => assert SafeResult((c, ReadLocal(c, local))) by { ReadIsSafe(c); }
    case Const(_) =>
  }

  lemma ReadIsSafe(c: Context)
    requires SafeContext(c)
    ensures forall arg: ArgNum :: SafeResult((c, ReadArg(c, arg)))
    ensures forall local: LocalNum :: SafeResult((c, ReadLocal(c, local)))
  {
    hide SafeCode, HandlesLive, SafeObjects;
  }

  lemma {:induction false} CallIsSafe(fuel: nat, name: GrammarName, args: seq<Expr>, c: Context)
    requires SafeContext(c) && SafeExpr(Call(name, args))
    ensures SafeResult(EvalExpr(fuel, Call(name, args), c))
    decreases fuel, args, 1
  {
    hide Find, Invoke, EvalArgs, SafeCode, HandlesLive, Resolve;
    FindPanicsIff(c, name);
    SafeNameResolves(name, c.currentScope);
    FindOnlyFails(c, name);
    if Find(c, name).Done? {
      var (path, h) := Find(c, name).value;
      if c.ns.objects[h].Method? {
        ArgsAreSafe(fuel, args, c.ns.objects[h].argCount, c);
        var (c1, vs) := EvalArgs(fuel, args, c.ns.objects[h].argCount, c);
        if vs.Done? && |vs.value| <= 7 && fuel > 0 { InvokeIsSafe(fuel - 1, path, vs.value, c1); }
      }
    }
  }

  lemma FindOnlyFails(c: Context, name: GrammarName)
    ensures Find(c, name).Stop? ==> Find(c, name).propagate.PErr?
  {
    hide Search;
  }

  predicate SafeValues(vs: seq<AmlValue>) { forall i :: 0 <= i < |vs| ==> SafeValue(vs[i]) }

  lemma {:induction false} ArgsAreSafe(fuel: nat, es: seq<Expr>, n: nat, c: Context)
    requires SafeContext(c) && SafeArgs(es)
    ensures var (c', vs) := EvalArgs(fuel, es, n, c);
            SafeEnd(vs) && (vs.Done? || vs.Stop? ==> SafeContext(c')) && (vs.Done? ==> SafeValues(vs.value))
    decreases fuel, es, 0
  {
    hide SafeContext, EvalExpr, SafeCode;
    if n > 0 && es != [] {
      ExprIsSafe(fuel, es[0], c);
      var (c1, v) := EvalExpr(fuel, es[0], c);
      if v.Done? { ArgsAreSafe(fuel, es[1..], n - 1, c1); }
    }
  }

  lemma HandleIsHeld(ns: Space<AmlValue>, path: PathName)
    requires path != ROOT_NAME && HandlesLive(ns)
    ensures GetHandle(ns, path).Ok? ==> GetHandle(ns, path).value in ns.objects
  {
    hide NodeAt;
    HandleRefines(ns, SegsOf(path));
    AbsLookup(ns.root, SegsOf(path));
  }

  lemma EnterIsSafe(path: PathName, args: seq<AmlValue>, c: Context)
    requires |args| <= 7 && SafeContext(c) && SafeValues(args)
    ensures SafeContext(Enter(path, args, c)) && Enter(path, args, c).ns == c.ns
  {
    hide HandlesLive, SafeObjects, SafeCode, HasLevel;
  }

  lemma {:induction false} InvokeIsSafe(fuel: nat, path: PathName, args: seq<AmlValue>, c: Context)
    requires path != ROOT_NAME && |args| <= 7 && SafeContext(c) && SafeValues(args)
    ensures SafeResult(Invoke(fuel, path, args, c))
    decreases fuel
  {
    hide ExecList, AddLevel, RemoveLevel, GetHandle, HandlesLive, SafeCode, SafeCells, Enter;
    PathIsNormal(path);
    HandleIsHeld(c.ns, path);
    if IsMethodAt(c, path) {
      var entered := Enter(path, args, c);
      EnterIsSafe(path, args, c);
      LevelKeepsSafe(entered, path, MethodLocals);
      var c1 := entered.(ns := AddLevel(c.ns, path, MethodLocals).0);
      var code := c.ns.objects[GetHandle(c.ns, path).value].code;
      CodeIsSafe(fuel, code, c1);
      var (c2, out) := ExecList(fuel, code, c1);
      if out.Done? || out.Stop? { LevelKeepsSafe(c2, path, MethodLocals); }
    }
  }

  lemma {:induction false} StmtIsSafe(fuel: nat, s: Stmt, c: Context)
    requires SafeContext(c) && SafeStmt(s)
    ensures SafeRun(ExecStmt(fuel, s, c))
    decreases fuel, s
  {
    hide SafeContext, EvalExpr, AddLevel, AddResolved, NodeAt, Resolve;
    match s
    case Eval(e) => ExprIsSafe(fuel, e, c);
    case ReturnStmt(e) => ExprIsSafe(fuel, e, c);
    case If(pred, thenBranch, elseBranch) =>
      ExprIsSafe(fuel, pred, c);
      var (c1, v) := EvalExpr(fuel, pred, c);
      if v.Done? {
        CodeIsSafe(fuel, thenBranch, c1);
        CodeIsSafe(fuel, elseBranch, c1);
      }
    case While(pred, body) =>
      ExprIsSafe(fuel, pred, c);
      var (c1, v) := EvalExpr(fuel, pred, c);
      if v.Done? {
        CodeIsSafe(fuel, body, c1);
        var (c2, out) := ExecList(fuel, body, c1);
        if fuel > 0 && (out.Done? || out.Stop?) { StmtIsSafe(fuel - 1, s, c2); }
      }
    case DefName(name, n) => DefinitionIsSafe(c, name, Integer(n));
    case DefMethod(name, argCount, code) => DefinitionIsSafe(c, name, Method(argCount, code));
    case Scope(name, body) =>
      if Resolve(name, c.currentScope).Ok? {
        GrammarNameResolves(name, c.currentScope);
        BlockIsSafe(fuel, Resolve(name, c.currentScope).value, ScopeLevel, body, c);
      }
    case DefDevice(name, body) =>
      DefinitionIsSafe(c, name, Device);
      AddedResolves(c, name, Device);
      var (c1, r) := AddResolved(c, name, Device);
      if r.Done? {
        GrammarNameResolves(name, c.currentScope);
        BlockIsSafe(fuel, Resolve(name, c.currentScope).value, DeviceLevel, body, c1);
      }
    case _ =>
  }

  lemma {:induction false} BlockIsSafe(fuel: nat, path: PathName, typ: LevelType, body: seq<Stmt>, c: Context)
    requires SafeContext(c) && SafeCode(body)
    ensures IsRooted(path)
    ensures var c1 := c.(currentScope := path, ns := AddLevel(c.ns, path, typ).0);
            SafeContext(c1) && SafeRun(ExecList(fuel, body, c1))
            && (forall scope: PathName :: SafeRun(Leave(scope, ExecList(fuel, body, c1))))
            && SafeContext(c.(ns := AddLevel(c.ns, path, typ).0))
    decreases fuel, body, 1
  {
    hide ExecList, AddLevel, RemoveLevel, HandlesLive, SafeObjects, SafeCells, SafeCode;
    LevelKeepsSafe(c, path, typ);
    CodeIsSafe(fuel, body, c.(currentScope := path, ns := AddLevel(c.ns, path, typ).0));
  }

  lemma {:induction false} CodeIsSafe(fuel: nat, ss: seq<Stmt>, c: Context)
    requires SafeContext(c) && SafeCode(ss)
    ensures SafeRun(ExecList(fuel, ss, c))
    decreases fuel, ss, 0
  {
    hide SafeContext, ExecStmt, SafeStmt;
    if ss != [] {
      StmtIsSafe(fuel, ss[0], c);
      var (c1, out) := ExecStmt(fuel, ss[0], c);
      if out.Done? { CodeIsSafe(fuel, ss[1..], c1); }
    }
  }

  /** A safe program, run from the start, never panics, whatever it defines, calls or stores. */
  lemma SafeProgramNeverPanics(fuel: nat, ss: seq<Stmt>)
    requires SafeCode(ss)
    ensures !ExecList(fuel, ss, Context(EmptySpace(), None, ROOT_NAME, true)).1.Panic?
  {
    hide ExecList, SafeCode;
    EmptySpaceIsExact<AmlValue>();
    CodeIsSafe(fuel, ss, Context(EmptySpace(), None, ROOT_NAME, true));
  }
}
