/** What `While` means, free of fuel (aml/src/statement.rs:204-272). */
module Loops {
  import opened Types
  import opened Names
  import opened Levels
  import opened Namespaces
  import opened Interpreter
  import opened Restoration

  // ---- A run that ends does the same with more fuel ----

  lemma {:induction false} ExprFuel(f: nat, e: Expr, c: Context)
    requires !EvalExpr(f, e, c).1.Timeout?
    ensures EvalExpr(f + 1, e, c) == EvalExpr(f, e, c)
    decreases f, e
  {
    hide StoreTo, FinishAdd, Search, Invoke, EvalArgs, SegsOf;
    match e {
      case Const(n) =>
      case ArgObj(arg) =>
      case LocalObj(local) =>
      case Store(value, target) => ExprFuel(f, value, c);
      case Add(left, right, target) =>
        ExprFuel(f, left, c);
        var (c1, l) := EvalExpr(f, left, c);
        if l.Done? { ExprFuel(f, right, c1); }
      case LLess(left, right) =>
        ExprFuel(f, left, c);
        var (c1, l) := EvalExpr(f, left, c);
        if l.Done? { ExprFuel(f, right, c1); }
      case Call(name, args) =>
        if Find(c, name).Done? {
          var (path, h) := Find(c, name).value;
          if h in c.ns.objects && IsPath(path) && path != ROOT_NAME && c.ns.objects[h].Method? {
            ArgsFuel(f, args, c.ns.objects[h].argCount, c);
            var (c1, vs) := EvalArgs(f, args, c.ns.objects[h].argCount, c);
            if vs.Done? && |vs.value| <= 7 { InvokeFuel(f - 1, path, vs.value, c1); }
          }
        }
    }
  }

  lemma {:induction false} ArgsFuel(f: nat, es: seq<Expr>, n: nat, c: Context)
    requires !EvalArgs(f, es, n, c).1.Timeout?
    ensures EvalArgs(f + 1, es, n, c) == EvalArgs(f, es, n, c)
    decreases f, es
  {
    hide EvalExpr;
    if n > 0 && es != [] {
      ExprFuel(f, es[0], c);
      var (c1, v) := EvalExpr(f, es[0], c);
      if v.Done? { ArgsFuel(f, es[1..], n - 1, c1); }
    }
  }

  lemma {:induction false} InvokeFuel(f: nat, path: PathName, args: seq<AmlValue>, c: Context)
    requires path != ROOT_NAME && |args| <= 7
    requires !Invoke(f, path, args, c).1.Timeout?
    ensures Invoke(f + 1, path, args, c) == Invoke(f, path, args, c)
    decreases f
  {
    hide ExecList, AddLevel, RemoveLevel, GetHandle, Enter;
    PathIsNormal(path);
    var h := GetHandle(c.ns, path);
    if h.Ok? && h.value in c.ns.objects && c.ns.objects[h.value].Method? {
      var (ns1, added) := AddLevel(c.ns, path, MethodLocals);
      if added.Ok? { ListFuel(f, c.ns.objects[h.value].code, Enter(path, args, c).(ns := ns1)); }
    }
  }

  lemma {:induction false} StmtFuel(f: nat, s: Stmt, c: Context)
    requires !ExecStmt(f, s, c).1.Timeout?
    ensures ExecStmt(f + 1, s, c) == ExecStmt(f, s, c)
    decreases f, s
  {
    hide EvalExpr, ExecList, AddResolved, AddLevel, Resolve;
    match s {
      case Noop =>
      case BreakStmt =>
      case ContinueStmt =>
      case Eval(e) => ExprFuel(f, e, c);
      case ReturnStmt(e) => ExprFuel(f, e, c);
      case If(pred, thenBranch, elseBranch) =>
        ExprFuel(f, pred, c);
        var (c1, v) := EvalExpr(f, pred, c);
        if v.Done? && AsBool(v.value).Ok? {
          if AsBool(v.value).value { ListFuel(f, thenBranch, c1); } else { ListFuel(f, elseBranch, c1); }
        }
      case While(pred, body) =>
        ExprFuel(f, pred, c);
        var (c1, v) := EvalExpr(f, pred, c);
        if v.Done? && AsBool(v.value) == Ok(true) {
          ListFuel(f, body, c1);
          var (c2, out) := ExecList(f, body, c1);
          if out.Done? || out == Stop(PContinue) { StmtFuel(f - 1, s, c2); }
        }
      case DefName(name, n) =>
      case DefMethod(name, argCount, code) =>
      case Scope(name, body) =>
        GrammarNameResolves(name, c.currentScope);
        if Resolve(name, c.currentScope).Ok? {
          var path := Resolve(name, c.currentScope).value;
          PathIsNormal(path);
          var (ns, added) := AddLevel(c.ns, path, ScopeLevel);
          if added.Ok? { ListFuel(f, body, c.(currentScope := path, ns := ns)); }
        }
      case DefDevice(name, body) =>
        GrammarNameResolves(name, c.currentScope);
        AddedResolves(c, name, Device);
        var (c1, r) := AddResolved(c, name, Device);
        if r.Done? {
          var path := Resolve(name, c.currentScope).value;
          PathIsNormal(path);
          var (ns, added) := AddLevel(c1.ns, path, DeviceLevel);
          if added.Ok? { ListFuel(f, body, c1.(currentScope := path, ns := ns)); }
        }
    }
  }

  lemma {:induction false} ListFuel(f: nat, ss: seq<Stmt>, c: Context)
    requires !ExecList(f, ss, c).1.Timeout?
    ensures ExecList(f + 1, ss, c) == ExecList(f, ss, c)
    decreases f, ss
  {
    hide ExecStmt;
    if ss != [] {
      StmtFuel(f, ss[0], c);
      var (c1, out) := ExecStmt(f, ss[0], c);
      if out.Done? { ListFuel(f, ss[1..], c1); }
    }
  }

  lemma {:induction false} ExprFuelUpTo(f: nat, g: nat, e: Expr, c: Context)
    requires f <= g && !EvalExpr(f, e, c).1.Timeout?
    ensures EvalExpr(g, e, c) == EvalExpr(f, e, c)
    decreases g - f
  {
    hide EvalExpr;
    if f < g { ExprFuel(f, e, c); ExprFuelUpTo(f + 1, g, e, c); }
  }

  lemma {:induction false} StmtFuelUpTo(f: nat, g: nat, s: Stmt, c: Context)
    requires f <= g && !ExecStmt(f, s, c).1.Timeout?
    ensures ExecStmt(g, s, c) == ExecStmt(f, s, c)
    decreases g - f
  {
    hide ExecStmt;
    if f < g { StmtFuel(f, s, c); StmtFuelUpTo(f + 1, g, s, c); }
  }

  lemma {:induction false} ListFuelUpTo(f: nat, g: nat, ss: seq<Stmt>, c: Context)
    requires f <= g && !ExecList(f, ss, c).1.Timeout?
    ensures ExecList(g, ss, c) == ExecList(f, ss, c)
    decreases g - f
  {
    hide ExecList;
    if f < g { ListFuel(f, ss, c); ListFuelUpTo(f + 1, g, ss, c); }
  }

  // ---- Meanings: how a run ends, or `None` if it never does ----

  ghost function ExprMeaning(e: Expr, c: Context): Option<(Context, Outcome<AmlValue>)> {
    if f: nat :| !EvalExpr(f, e, c).1.Timeout? then Some(EvalExpr(f, e, c)) else None
  }

  ghost function StmtMeaning(s: Stmt, c: Context): Option<(Context, Outcome<()>)> {
    if f: nat :| !ExecStmt(f, s, c).1.Timeout? then Some(ExecStmt(f, s, c)) else None
  }

  ghost function ListMeaning(ss: seq<Stmt>, c: Context): Option<(Context, Outcome<()>)> {
    if f: nat :| !ExecList(f, ss, c).1.Timeout? then Some(ExecList(f, ss, c)) else None
  }

  /** Whatever the fuel, a run that ends ends the same way. */
  lemma ExprMeaningIs(f: nat, e: Expr, c: Context)
    requires !EvalExpr(f, e, c).1.Timeout?
    ensures ExprMeaning(e, c) == Some(EvalExpr(f, e, c))
  {
    hide EvalExpr;
    forall g: nat | !EvalExpr(g, e, c).1.Timeout? ensures EvalExpr(g, e, c) == EvalExpr(f, e, c) {
      if g <= f { ExprFuelUpTo(g, f, e, c); } else { ExprFuelUpTo(f, g, e, c); }
    }
  }

  lemma StmtMeaningIs(f: nat, s: Stmt, c: Context)
    requires !ExecStmt(f, s, c).1.Timeout?
    ensures StmtMeaning(s, c) == Some(ExecStmt(f, s, c))
  {
    hide ExecStmt;
    forall g: nat | !ExecStmt(g, s, c).1.Timeout? ensures ExecStmt(g, s, c) == ExecStmt(f, s, c) {
      if g <= f { StmtFuelUpTo(g, f, s, c); } else { StmtFuelUpTo(f, g, s, c); }
    }
  }

  lemma ListMeaningIs(f: nat, ss: seq<Stmt>, c: Context)
    requires !ExecList(f, ss, c).1.Timeout?
    ensures ListMeaning(ss, c) == Some(ExecList(f, ss, c))
  {
    hide ExecList;
    forall g: nat | !ExecList(g, ss, c).1.Timeout? ensures ExecList(g, ss, c) == ExecList(f, ss, c) {
      if g <= f { ListFuelUpTo(g, f, ss, c); } else { ListFuelUpTo(f, g, ss, c); }
    }
  }

  // ---- The loop law ----

  /** What happens after the predicate's value `v` is known, `again` being what the loop means from a context. */
  ghost function AfterTest(
    c1: Context, v: Outcome<AmlValue>, body: seq<Stmt>,
    again: Context -> Option<(Context, Outcome<()>)>): Option<(Context, Outcome<()>)>
  {
    if !v.Done? then Some((c1, Rethrow(v)))
    else match AsBool(v.value)
      case Err(e) => Some((c1, Fail(e)))
      case Ok(false) => Some((c1, Done(())))
      case Ok(true) =>
        match ListMeaning(body, c1)
        case None => None
        case Some((c2, out)) =>
          if out == Stop(PBreak) then Some((c2, Done(())))
          else if out.Done? || out == Stop(PContinue) then again(c2)
          else Some((c2, out))
  }

  /** One unfolding of a loop. */
  ghost function Unfolded(pred: Expr, body: seq<Stmt>, c: Context): Option<(Context, Outcome<()>)> {
    match ExprMeaning(pred, c)
    case None => None
    case Some((c1, v)) => AfterTest(c1, v, body, c2 => StmtMeaning(While(pred, body), c2))
  }

  lemma LoopEndsAsUnfolded(f: nat, pred: Expr, body: seq<Stmt>, c: Context)
    requires !ExecStmt(f, While(pred, body), c).1.Timeout?
    ensures Unfolded(pred, body, c) == Some(ExecStmt(f, While(pred, body), c))
  {
    hide EvalExpr, ExecList, ExprMeaning, ListMeaning, StmtMeaning;
    ExprMeaningIs(f, pred, c);
    var (c1, v) := EvalExpr(f, pred, c);
    if v.Done? && AsBool(v.value) == Ok(true) {
      ListMeaningIs(f, body, c1);
      var (c2, out) := ExecList(f, body, c1);
      if out.Done? || out == Stop(PContinue) { StmtMeaningIs(f - 1, While(pred, body), c2); }
    }
  }

  lemma UnfoldedEndsAsLoop(pred: Expr, body: seq<Stmt>, c: Context)
    requires Unfolded(pred, body, c).Some?
    ensures exists f: nat :: !ExecStmt(f, While(pred, body), c).1.Timeout?
  {
    hide EvalExpr, ExecList;
    var s := While(pred, body);
    var f1: nat :| !EvalExpr(f1, pred, c).1.Timeout?;
    ExprMeaningIs(f1, pred, c);
    var (c1, v) := EvalExpr(f1, pred, c);
    if v.Done? && AsBool(v.value) == Ok(true) {
      var f2: nat :| !ExecList(f2, body, c1).1.Timeout?;
      ListMeaningIs(f2, body, c1);
      var (c2, out) := ExecList(f2, body, c1);
      if out.Done? || out == Stop(PContinue) {
        var f3: nat :| !ExecStmt(f3, s, c2).1.Timeout?;
        var f := f1 + f2 + f3 + 1;
        ExprFuelUpTo(f1, f, pred, c);
        ListFuelUpTo(f2, f, body, c1);
        StmtFuelUpTo(f3, f - 1, s, c2);
        assert ExecStmt(f, s, c) == ExecStmt(f - 1, s, c2);
      } else {
        var f := f1 + f2;
        ExprFuelUpTo(f1, f, pred, c);
        ListFuelUpTo(f2, f, body, c1);
        assert !ExecStmt(f, s, c).1.Timeout?;
      }
    } else {
      assert !ExecStmt(f1, s, c).1.Timeout?;
    }
  }

  /**
   A loop means what its one-step unfolding means, divergence included: the predicate runs once per test in
   the context the previous body left, a continue re-tests, a break ends normally, everything else passes.
   */
  lemma WhileUnfolds(pred: Expr, body: seq<Stmt>, c: Context)
    ensures StmtMeaning(While(pred, body), c) == Unfolded(pred, body, c)
  {
    hide ExecStmt, Unfolded;
    var s := While(pred, body);
    if f: nat :| !ExecStmt(f, s, c).1.Timeout? {
      LoopEndsAsUnfolded(f, pred, body, c);
      StmtMeaningIs(f, s, c);
    } else if Unfolded(pred, body, c).Some? {
      UnfoldedEndsAsLoop(pred, body, c);
    }
  }

  /** No break or continue ever leaves a loop. */
  lemma {:induction false} WhileCatches(f: nat, pred: Expr, body: seq<Stmt>, c: Context)
    ensures var out := ExecStmt(f, While(pred, body), c).1; out != Stop(PBreak) && out != Stop(PContinue)
    decreases f
  {
    hide EvalExpr, ExecList, KeepsNames;
    ExprKeeps(f, pred, c);
    var (c1, v) := EvalExpr(f, pred, c);
    if v.Done? && AsBool(v.value) == Ok(true) && f > 0 {
      WhileCatches(f - 1, pred, body, ExecList(f, body, c1).0);
    }
  }

  // ---- A loop that counts ----

  predicate Holds(c: Context, local: LocalNum, n: u64) {
    c.methodContext.Some? && c.methodContext.value.locals[local] == Some(Integer(n))
  }

  function SetLocal(c: Context, local: LocalNum, n: u64): Context
    requires c.methodContext.Some?
  {
    var m := c.methodContext.value;
    c.(methodContext := Some(m.(locals := m.locals[local := Some(Integer(n))])))
  }

  function Counting(local: LocalNum, n: u64): Stmt {
    While(LLess(LocalObj(local), Const(n)), [Eval(Add(LocalObj(local), Const(1), LocalTarget(local)))])
  }

  /** One turn of the body: the local is one more, and nothing else changes. */
  lemma CountOnce(f: nat, local: LocalNum, m: u64, n: u64, c: Context)
    requires Holds(c, local, m) && m < n
    ensures ExecList(f, Counting(local, n).body, c) == (SetLocal(c, local, m + 1), Done(()))
  {
    var body := Counting(local, n).body;
    assert body[1..] == [];
    assert EvalExpr(f, body[0].e, c) == (SetLocal(c, local, m + 1), Done(Integer(m + 1)));
    assert ExecStmt(f, body[0], c).1 == Done(());
  }

  lemma {:induction false} CountsWithFuel(f: nat, local: LocalNum, m: u64, n: u64, c: Context)
    requires Holds(c, local, m) && f + m >= n
    ensures ExecStmt(f, Counting(local, n), c) == (if m < n then SetLocal(c, local, n) else c, Done(()))
    decreases f
  {
    hide ExecList;
    assert EvalExpr(f, LLess(LocalObj(local), Const(n)), c) == (c, Done(Boolean(m < n)));
    if m < n {
      CountOnce(f, local, m, n, c);
      var c1 := SetLocal(c, local, m + 1);
      CountsWithFuel(f - 1, local, m + 1, n, c1);
      var ls := c.methodContext.value.locals;
      assert ls[local := Some(Integer(m + 1))][local := Some(Integer(n))] == ls[local := Some(Integer(n))];
    }
  }

  /**
   Counting a local up to a bound ends, for every start and bound, with the larger of the two in the local and
   the rest of the context as it was.
   */
  lemma CountingLoopCounts(local: LocalNum, m: u64, n: u64, c: Context)
    requires Holds(c, local, m)
    ensures StmtMeaning(Counting(local, n), c) == Some((if m < n then SetLocal(c, local, n) else c, Done(())))
  {
    var f: nat := n;
    CountsWithFuel(f, local, m, n, c);
    StmtMeaningIs(f, Counting(local, n), c);
  }
}
