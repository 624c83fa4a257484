/** The history variable of a context decides nothing: runs that differ in it alone agree in everything else. */
module History {
  import opened Types
  import opened Names
  import opened Levels
  import opened Namespaces
  import opened Interpreter

  /** The contexts differ in their history variable at most. */
  predicate Alike(c: Context, d: Context) { d == c.(clean := d.clean) }

  predicate Agree<T(==)>(r: (Context, Outcome<T>), s: (Context, Outcome<T>)) { r.1 == s.1 && Alike(r.0, s.0) }

  lemma StoreIgnoresHistory(c: Context, d: Context, target: Target, value: AmlValue)
    requires Alike(c, d)
    ensures Agree(StoreTo(c, target, value), StoreTo(d, target, value))
  {
    hide Search, IsSearchable;
  }

  lemma DefinitionIgnoresHistory(c: Context, d: Context, name: GrammarName, value: AmlValue)
    requires Alike(c, d)
    ensures Agree(AddResolved(c, name, value), AddResolved(d, name, value))
  {
    hide AddValue, Resolve;
  }

  lemma {:induction false} ExprIgnoresHistory(fuel: nat, e: Expr, c: Context, d: Context)
    requires Alike(c, d)
    ensures Agree(EvalExpr(fuel, e, c), EvalExpr(fuel, e, d))
    decreases fuel, e
  {
    hide StoreTo, Search, IsSearchable, Invoke, EvalArgs, Less;
    match e
    case Store(value, target) =>
      ExprIgnoresHistory(fuel, value, c, d);
      var (c1, v) := EvalExpr(fuel, value, c);
      if v.Done? { StoreIgnoresHistory(c1, EvalExpr(fuel, value, d).0, target, v.value); }
    case Add(left, right, target) =>
      ExprIgnoresHistory(fuel, left, c, d);
      var (c1, l) := EvalExpr(fuel, left, c);
      if l.Done? {
        var d1 := EvalExpr(fuel, left, d).0;
        ExprIgnoresHistory(fuel, right, c1, d1);
        var (c2, r) := EvalExpr(fuel, right, c1);
        if r.Done? && AsInteger(l.value).Ok? && AsInteger(r.value).Ok? {
          var sum := Integer(WrappingAdd(AsInteger(l.value).value, AsInteger(r.value).value));
          StoreIgnoresHistory(c2, EvalExpr(fuel, right, d1).0, target, sum);
        }
      }
    case LLess(left, right) =>
      ExprIgnoresHistory(fuel, left, c, d);
      var (c1, l) := EvalExpr(fuel, left, c);
      if l.Done? { ExprIgnoresHistory(fuel, right, c1, EvalExpr(fuel, left, d).0); }
    case Call(name, args) =>
      assert Find(c, name) == Find(d, name);
      if Find(c, name).Done? {
        var (path, h) := Find(c, name).value;
        if h in c.ns.objects && IsPath(path) && path != ROOT_NAME && c.ns.objects[h].Method? {
          var n := c.ns.objects[h].argCount;
          ArgsIgnoreHistory(fuel, args, n, c, d);
          var (c1, vs) := EvalArgs(fuel, args, n, c);
          if vs.Done? && |vs.value| <= 7 && fuel > 0 {
            InvokeIgnoresHistory(fuel - 1, path, vs.value, c1, EvalArgs(fuel, args, n, d).0);
          }
        }
      }
    case _ =>
  }

  lemma {:induction false} ArgsIgnoreHistory(fuel: nat, es: seq<Expr>, n: nat, c: Context, d: Context)
    requires Alike(c, d)
    ensures Agree(EvalArgs(fuel, es, n, c), EvalArgs(fuel, es, n, d))
    decreases fuel, es
  {
    hide EvalExpr;
    if n > 0 && es != [] {
      ExprIgnoresHistory(fuel, es[0], c, d);
      var (c1, v) := EvalExpr(fuel, es[0], c);
      if v.Done? { ArgsIgnoreHistory(fuel, es[1..], n - 1, c1, EvalExpr(fuel, es[0], d).0); }
    }
  }

  /** An invocation from either context ends alike: the same outcome, namespace, method context and scope. */
  lemma {:induction false} InvokeIgnoresHistory(fuel: nat, path: PathName, args: seq<AmlValue>, c: Context, d: Context)
    requires path != ROOT_NAME && |args| <= 7 && Alike(c, d)
    ensures Agree(Invoke(fuel, path, args, c), Invoke(fuel, path, args, d))
    decreases fuel
  {
    hide ExecList, AddLevel, RemoveLevel, GetHandle, NewMethodContext;
    PathIsNormal(path);
    var h := GetHandle(c.ns, path);
    if h.Ok? && h.value in c.ns.objects && c.ns.objects[h.value].Method? {
      var ns1 := AddLevel(c.ns, path, MethodLocals).0;
      var c1, d1 := Enter(path, args, c).(ns := ns1), Enter(path, args, d).(ns := ns1);
      CodeIgnoresHistory(fuel, c.ns.objects[h.value].code, c1, d1);
    }
  }

  lemma {:induction false} StmtIgnoresHistory(fuel: nat, s: Stmt, c: Context, d: Context)
    requires Alike(c, d)
    ensures Agree(ExecStmt(fuel, s, c), ExecStmt(fuel, s, d))
    decreases fuel, s
  {
    hide EvalExpr, AddLevel, AddResolved, Resolve;
    match s
    case Eval(e) => ExprIgnoresHistory(fuel, e, c, d);
    case ReturnStmt(e) => ExprIgnoresHistory(fuel, e, c, d);
    case If(pred, thenBranch, elseBranch) =>
      ExprIgnoresHistory(fuel, pred, c, d);
      var c1, d1 := EvalExpr(fuel, pred, c).0, EvalExpr(fuel, pred, d).0;
      CodeIgnoresHistory(fuel, thenBranch, c1, d1);
      CodeIgnoresHistory(fuel, elseBranch, c1, d1);
    case While(pred, body) =>
      ExprIgnoresHistory(fuel, pred, c, d);
      var c1, d1 := EvalExpr(fuel, pred, c).0, EvalExpr(fuel, pred, d).0;
      CodeIgnoresHistory(fuel, body, c1, d1);
      if fuel > 0 { StmtIgnoresHistory(fuel - 1, s, ExecList(fuel, body, c1).0, ExecList(fuel, body, d1).0); }
    case DefName(name, n) => DefinitionIgnoresHistory(c, d, name, Integer(n));
    case DefMethod(name, argCount, code) => DefinitionIgnoresHistory(c, d, name, Method(argCount, code));
    case Scope(name, body) =>
      if Resolve(name, c.currentScope).Ok? {
        GrammarNameResolves(name, c.currentScope);
        var path := Resolve(name, c.currentScope).value;
        PathIsNormal(path);
        var ns := AddLevel(c.ns, path, ScopeLevel).0;
        CodeIgnoresHistory(fuel, body, c.(currentScope := path, ns := ns), d.(currentScope := path, ns := ns));
      }
    case DefDevice(name, body) =>
      DefinitionIgnoresHistory(c, d, name, Device);
      var (c1, r) := AddResolved(c, name, Device);
      AddedResolves(c, name, Device);
      if r.Done? {
        GrammarNameResolves(name, c.currentScope);
        var path := Resolve(name, c.currentScope).value;
        PathIsNormal(path);
        var ns := AddLevel(c1.ns, path, DeviceLevel).0;
        CodeIgnoresHistory(fuel, body, c1.(currentScope := path, ns := ns),
                           AddResolved(d, name, Device).0.(currentScope := path, ns := ns));
      }
    case _ =>
  }

  /** Code run from either context ends alike. */
  lemma {:induction false} CodeIgnoresHistory(fuel: nat, ss: seq<Stmt>, c: Context, d: Context)
    requires Alike(c, d)
    ensures Agree(ExecList(fuel, ss, c), ExecList(fuel, ss, d))
    decreases fuel, ss
  {
    hide ExecStmt;
    if ss != [] {
      StmtIgnoresHistory(fuel, ss[0], c, d);
      var (c1, out) := ExecStmt(fuel, ss[0], c);
      if out.Done? { CodeIgnoresHistory(fuel, ss[1..], c1, ExecStmt(fuel, ss[0], d).0); }
    }
  }
}
