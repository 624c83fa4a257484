/**
 The interpreter's context as the object the source updates in place (aml/src/lib.rs:112-387,
 aml/src/statement.rs, aml/src/expression.rs:602-712), proved to do what `Interpreter` says.
 */
module ContextObject {
  import opened Types
  import opened Names
  import opened Levels
  import opened Namespaces
  import opened NamespaceObject
  import opened Interpreter
  import opened Restoration

  class AmlContext {
    const namespace: Namespace<AmlValue>
    var methodContext: Option<MethodContext>
    var currentScope: PathName
    ghost var clean: bool

    ghost function State(): Context
      reads this, namespace
    {
      Context(namespace.State(), methodContext, currentScope, clean)
    }

    constructor ()
      ensures fresh(namespace)
      ensures State() == Context(EmptySpace(), None, ROOT_NAME, true)
    {
      var ns := new Namespace<AmlValue>();
      namespace, methodContext, currentScope, clean := ns, None, ROOT_NAME, true;
    }

    /** `namespace.search`, where a name the namespace cannot walk panics. */
    method FindName(name: GrammarName) returns (r: Outcome<(AmlName, u32)>)
      ensures r == Find(State(), name)
    {
      if !IsSearchable(name, currentScope) { return Panic; }
      SearchAgrees(namespace.State(), name, currentScope);
      var found := namespace.Search(name, currentScope);
      if found.Err? { return Fail(found.error); }
      r := Done(found.value);
    }

    /** `AmlContext::store`. */
    method StoreValue(target: Target, value: AmlValue) returns (r: Outcome<AmlValue>)
      modifies this`methodContext, namespace`objects
      ensures (State(), r) == StoreTo(old(State()), target, value)
    {
      match target {
        case NullTarget => r := Done(value);
        case DebugTarget => r := Panic;
        case ArgTarget(arg) =>
          if methodContext.None? { return Fail(NotExecutingControlMethod); }
          var m := methodContext.value;
          methodContext := Some(m.(args := m.args[arg := Some(value)]));
          r := Done(value);
        case LocalTarget(local) =>
          if methodContext.None? { return Fail(NotExecutingControlMethod); }
          var m := methodContext.value;
          methodContext := Some(m.(locals := m.locals[local := Some(value)]));
          r := Done(value);
        case NameTarget(name) =>
          var found := FindName(name);
          if !found.Done? { return Rethrow(found); }
          var h := found.value.1;
          if h !in namespace.objects { return Panic; }
          var v := AsType(value, TypeOf(namespace.objects[h]));
          if v.Err? { return Fail(v.error); }
          namespace.objects := namespace.objects[h := v.value];
          r := Done(v.value);
      }
    }

    method AddAtResolvedPath(name: GrammarName, value: AmlValue) returns (r: Outcome<()>)
      modifies namespace
      ensures (State(), r) == AddResolved(old(State()), name, value)
    {
      hide NodeAt, AddValueAt, FoldName, Walk;
      var resolved := Resolve(name, currentScope);
      if resolved.Err? { return Fail(resolved.error); }
      GrammarNameResolves(name, currentScope);
      if resolved.value == ROOT_NAME { return Panic; }
      PathIsNormal(resolved.value);
      PathWalks(namespace.root, resolved.value);
      var added := namespace.AddValue(resolved.value, value);
      r := if added.Ok? then Done(()) else Fail(added.error);
    }

    method Evaluate(fuel: nat, e: Expr) returns (r: Outcome<AmlValue>)
      modifies this, namespace
      ensures (State(), r) == EvalExpr(fuel, e, old(State()))
      decreases fuel, e
    {
      hide Find, StoreTo, Search, Invoke, EvalArgs, AsInteger, IsSearchable, Less;
      match e {
        case Const(n) => r := Done(Integer(n));
        case ArgObj(arg) => r := CurrentArg(arg);
        case LocalObj(local) => r := Local(local);
        case Store(value, target) =>
          var v := Evaluate(fuel, value);
          if !v.Done? { return v; }
          r := StoreValue(target, v.value);
        case Add(left, right, target) =>
          var l := Evaluate(fuel, left);
          if !l.Done? { return l; }
          var rhs := Evaluate(fuel, right);
          if !rhs.Done? { return rhs; }
          var a, b := AsInteger(l.value), AsInteger(rhs.value);
          if a.Err? { return Fail(a.error); }
          if b.Err? { return Fail(b.error); }
          var sum := Integer(WrappingAdd(a.value, b.value));
          var stored := StoreValue(target, sum);
          r := if stored.Done? then Done(sum) else stored;
        case LLess(left, right) =>
          var l := Evaluate(fuel, left);
          if !l.Done? { return l; }
          var rhs := Evaluate(fuel, right);
          if !rhs.Done? { return rhs; }
          r := Less(l.value, rhs.value);
        case Call(name, args) =>
          var found := FindName(name);
          if !found.Done? { return Rethrow(found); }
          var (path, h) := found.value;
          if h !in namespace.objects || !IsPath(path) || path == ROOT_NAME { return Panic; }
          var callee := namespace.objects[h];
          if !callee.Method? { return Done(callee); }
          var vs := EvaluateArgs(fuel, args, callee.argCount);
          if !vs.Done? { return Rethrow(vs); }
          if |vs.value| > 7 { return Fail(TooManyArgs); }
          if fuel == 0 { return Timeout; }
          r := InvokeMethod(fuel - 1, path, vs.value);
      }
    }

    /** `read_target`. */
    method Read(target: Target) returns (r: Outcome<AmlValue>)
      ensures r == ReadTarget(State(), target)
    {
      match target {
        case ArgTarget(arg) => r := CurrentArg(arg);
        case LocalTarget(local) => r := Local(local);
        case NameTarget(name) =>
          var found := FindName(name);
          if !found.Done? { return Rethrow(found); }
          var h := found.value.1;
          r := if h in namespace.objects then Done(namespace.objects[h]) else Panic;
        case _ => r := Panic;
      }
    }

    method CurrentArg(arg: ArgNum) returns (r: Outcome<AmlValue>)
      ensures r == ReadArg(State(), arg)
    {
      if methodContext.None? { return Fail(NotExecutingControlMethod); }
      var v := methodContext.value.args[arg];
      r := if v.None? then Fail(InvalidArgAccess(arg)) else Done(v.value);
    }

    method Local(local: LocalNum) returns (r: Outcome<AmlValue>)
      ensures r == ReadLocal(State(), local)
    {
      if methodContext.None? { return Fail(NotExecutingControlMethod); }
      var v := methodContext.value.locals[local];
      r := if v.None? then Fail(InvalidLocalAccess(local)) else Done(v.value);
    }

    method EvaluateArgs(fuel: nat, es: seq<Expr>, n: nat) returns (r: Outcome<seq<AmlValue>>)
      modifies this, namespace
      ensures (State(), r) == EvalArgs(fuel, es, n, old(State()))
      decreases fuel, es
    {
      hide EvalExpr;
      if n == 0 { return Done([]); }
      if es == [] { return Fail(UnexpectedEndOfStream); }
      var v := Evaluate(fuel, es[0]);
      if !v.Done? { return Rethrow(v); }
      var vs := EvaluateArgs(fuel, es[1..], n - 1);
      r := if vs.Done? then Done([v.value] + vs.value) else vs;
    }

    // The namespace's operations on the paths a program resolves to.

    method MakeLevel(path: PathName, typ: LevelType) returns (r: Result<()>)
      requires IsRooted(path)
      modifies namespace`root
      ensures (namespace.State(), r) == Namespaces.AddLevel(old(namespace.State()), path, typ)
    {
      hide NodeAt, FoldName;
      r := namespace.AddLevel(path, typ);
    }

    method DropLevel(path: PathName) returns (r: Result<()>)
      requires IsRooted(path)
      modifies namespace`root
      ensures (namespace.State(), r) == Namespaces.RemoveLevel(old(namespace.State()), path)
    {
      hide NodeAt, FoldName;
      r := namespace.RemoveLevel(path);
    }

    method HandleOf(path: PathName) returns (r: Result<u32>)
      requires path != ROOT_NAME
      ensures r == Namespaces.GetHandle(namespace.State(), path)
    {
      PathWalks(namespace.root, path);
      r := namespace.GetHandle(path);
    }

    /** `AmlContext::invoke_method`. */
    method InvokeMethod(fuel: nat, path: PathName, args: seq<AmlValue>) returns (r: Outcome<AmlValue>)
      requires path != ROOT_NAME && |args| <= 7
      modifies this, namespace
      ensures (State(), r) == Invoke(fuel, path, args, old(State()))
      ensures old(HandlesLive(namespace.State())) ==> HandlesLive(namespace.State())
      ensures MeetsNoLevel(fuel, path, args, old(State())) && (r.Done? || r.Stop?) ==>
                methodContext == old(methodContext) && currentScope == old(currentScope)
      decreases fuel
    {
      hide ExecList, AddLevel, RemoveLevel, HasLevel, GetHandle, HandlesLive, MeetsNoLevel, NewMethodContext;
      hide NodeAt, FoldName, SegsOf, Normalize, ReturnValue;
      CallerIsRestored(fuel, path, args, State());
      var handle := HandleOf(path);
      if handle.Err? { return Fail(handle.error); }
      if handle.value !in namespace.objects { return Panic; }
      var callee := namespace.objects[handle.value];
      if !callee.Method? { return Done(callee); }
      PathIsNormal(path);

      var oldContext, oldScope := methodContext, currentScope;
      clean := clean && !HasLevel(namespace.root, SegsOf(path));
      methodContext, currentScope := Some(NewMethodContext(args)), path;
      var added := MakeLevel(path, MethodLocals);
      if added.Err? { return Fail(added.error); }

      var out := Execute(fuel, callee.code);
      if out.Panic? || out.Timeout? { return ReturnValue(out); }

      var removed := DropLevel(path);
      if removed.Err? { return Fail(removed.error); }
      methodContext, currentScope := oldContext, oldScope;
      r := ReturnValue(out);
    }

    /** `term_list`: one statement after the other, until one does not end normally. */
    method Execute(fuel: nat, ss: seq<Stmt>) returns (r: Outcome<()>)
      modifies this, namespace
      ensures (State(), r) == ExecList(fuel, ss, old(State()))
      decreases fuel, ss
    {
      hide ExecStmt;
      var rest := ss;
      while rest != []
        invariant ExecList(fuel, ss, old(State())) == ExecList(fuel, rest, State())
        invariant |rest| <= |ss| && rest == ss[|ss| - |rest|..]
        decreases |rest|
      {
        var k := |ss| - |rest|;
        assert rest[0] == ss[k];
        r := ExecuteOne(fuel, ss[k]);
        if !r.Done? { return; }
        rest := rest[1..];
      }
      r := Done(());
    }

    method ExecuteOne(fuel: nat, s: Stmt) returns (r: Outcome<()>)
      modifies this, namespace
      ensures (State(), r) == ExecStmt(fuel, s, old(State()))
      decreases fuel, s, 1
    {
      hide EvalExpr, ExecList, AddLevel, AddValue, Normalize;
      match s {
        case Noop => r := Done(());
        case BreakStmt => r := Stop(PBreak);
        case ContinueStmt => r := Stop(PContinue);
        case Eval(e) =>
          var v := Evaluate(fuel, e);
          r := if v.Done? then Done(()) else Rethrow(v);
        case ReturnStmt(e) =>
          var v := Evaluate(fuel, e);
          r := if v.Done? then Stop(PReturn(v.value)) else Rethrow(v);
        case If(pred, thenBranch, elseBranch) =>
          var v := Evaluate(fuel, pred);
          if !v.Done? { return Rethrow(v); }
          var b := AsBool(v.value);
          if b.Err? { return Fail(b.error); }
          if b.value { r := Execute(fuel, thenBranch); } else { r := Execute(fuel, elseBranch); }
        case While(pred, body) => r := ExecuteWhile(fuel, pred, body, s);
        case DefName(name, n) => r := AddAtResolvedPath(name, Integer(n));
        case DefMethod(name, argCount, code) => r := AddAtResolvedPath(name, Method(argCount, code));
        case Scope(name, body) =>
          var previousScope := currentScope;
          var resolved := Resolve(name, currentScope);
          if resolved.Err? { return Fail(resolved.error); }
          GrammarNameResolves(name, currentScope);
          PathIsNormal(resolved.value);
          currentScope := resolved.value;
          var added := MakeLevel(currentScope, ScopeLevel);
          if added.Err? { return Fail(added.error); }
          r := Execute(fuel, body);
          if r.Done? { currentScope := previousScope; }
        case DefDevice(name, body) =>
          AddedResolves(State(), name, Device);
          GrammarNameResolves(name, currentScope);
          var previousScope := currentScope;
          var resolved := Resolve(name, currentScope);
          r := AddAtResolvedPath(name, Device);
          if !r.Done? { return; }
          PathIsNormal(resolved.value);
          var added := MakeLevel(resolved.value, DeviceLevel);
          if added.Err? { return Fail(added.error); }
          currentScope := resolved.value;
          r := Execute(fuel, body);
          if r.Done? { currentScope := previousScope; }
      }
    }

    /**
     `def_while`. The first predicate is evaluated before the loop, as the parser does; each turn then runs
     the body and evaluates the predicate again.
     */
    method ExecuteWhile(fuel: nat, pred: Expr, body: seq<Stmt>, ghost s: Stmt) returns (r: Outcome<()>)
      requires s == While(pred, body)
      modifies this, namespace
      ensures (State(), r) == ExecStmt(fuel, s, old(State()))
      decreases fuel, s, 0
    {
      hide EvalExpr, ExecList;
      ghost var start := State();
      var first := Evaluate(fuel, pred);
      if !first.Done? { return Rethrow(first); }
      var again := AsBool(first.value);
      if again.Err? { return Fail(again.error); }
      if !again.value { return Done(()); }

      var left: nat := fuel;
      ghost var tested := start;
      while true
        invariant left <= fuel
        invariant EvalExpr(left, pred, tested).0 == State()
        invariant EvalExpr(left, pred, tested).1.Done?
        invariant AsBool(EvalExpr(left, pred, tested).1.value) == Ok(true)
        invariant ExecStmt(fuel, s, start) == ExecStmt(left, s, tested)
        decreases left
      {
        var out := Execute(left, body);
        if out == Stop(PBreak) { return Done(()); }
        if !out.Done? && out != Stop(PContinue) { return out; }
        if left == 0 { return Timeout; }
        left := left - 1;
        tested := State();
        var v := Evaluate(left, pred);
        if !v.Done? { return Rethrow(v); }
        var b := AsBool(v.value);
        if b.Err? { return Fail(b.error); }
        if !b.value { return Done(()); }
      }
    }
  }

  /** The part of `InvokeRestores` that the object's caller sees. */
  lemma CallerIsRestored(fuel: nat, path: PathName, args: seq<AmlValue>, c: Context)
    requires path != ROOT_NAME && |args| <= 7
    ensures var (c', r) := Invoke(fuel, path, args, c);
            && (HandlesLive(c.ns) ==> HandlesLive(c'.ns))
            && (MeetsNoLevel(fuel, path, args, c) && (r.Done? || r.Stop?) ==>
                 c'.methodContext == c.methodContext && c'.currentScope == c.currentScope)
  {
    hide *;
    InvokeRestores(fuel, path, args, c);
  }
}
