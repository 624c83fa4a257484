/**
 When a block gives the current scope back (aml/src/term_object.rs:140-178, 623-659). A block that does not
 run to its end leaves its scope in place, so a loop that catches a break from inside a block keeps it.
 */
module Scoping {
  import opened Types
  import opened Names
  import opened Levels
  import opened Namespaces
  import opened Interpreter
  import opened History
  import opened Restoration

  /** Whether a break or continue may leave the statement. */
  predicate Escapes(s: Stmt)
    decreases s
  {
    match s
    case BreakStmt => true
    case ContinueStmt => true
    case If(_, thenBranch, elseBranch) => ListEscapes(thenBranch) || ListEscapes(elseBranch)
    case Scope(_, body) => ListEscapes(body)
    case DefDevice(_, body) => ListEscapes(body)
    case _ => false
  }

  predicate ListEscapes(ss: seq<Stmt>)
    decreases ss
  {
    ss != [] && (Escapes(ss[0]) || ListEscapes(ss[1..]))
  }

  /** No block of the statement lets a break or continue out. */
  predicate Tidy(s: Stmt)
    decreases s
  {
    match s
    case If(_, thenBranch, elseBranch) => ListTidy(thenBranch) && ListTidy(elseBranch)
    case While(_, body) => ListTidy(body)
    case Scope(_, body) => ListTidy(body) && !ListEscapes(body)
    case DefDevice(_, body) => ListTidy(body) && !ListEscapes(body)
    case _ => true
  }

  predicate ListTidy(ss: seq<Stmt>)
    decreases ss
  {
    ss == [] || (Tidy(ss[0]) && ListTidy(ss[1..]))
  }

  predicate Broke(o: Outcome<()>) { o == Stop(PBreak) || o == Stop(PContinue) }

  /** Only an escaping statement breaks, and unless something else stopped it the scope is the caller's. */
  ghost predicate KeepsBlock(c: Context, escapes: bool, r: (Context, Outcome<()>)) {
    && (r.0.clean ==> c.clean)
    && (Broke(r.1) ==> escapes)
    && (r.0.clean && (r.1.Done? || Broke(r.1)) ==> r.0.currentScope == c.currentScope)
  }

  lemma {:induction false} TidyInduction(fuel: nat, s: Stmt, c: Context)
    requires Tidy(s)
    ensures KeepsBlock(c, Escapes(s), ExecStmt(fuel, s, c))
    decreases fuel, s
  {
    hide EvalExpr, ExecList, AddResolved, AddLevel, Resolve, KeepsNames, ListEscapes, ListTidy;
    match s {
      case Noop =>
      case BreakStmt =>
      case ContinueStmt =>
      case Eval(e) => ExprKeeps(fuel, e, c);
      case ReturnStmt(e) => ExprKeeps(fuel, e, c);
      case If(pred, thenBranch, elseBranch) =>
        ExprKeeps(fuel, pred, c);
        var c1 := EvalExpr(fuel, pred, c).0;
        TidyListInduction(fuel, thenBranch, c1);
        TidyListInduction(fuel, elseBranch, c1);
      case While(pred, body) =>
        ExprKeeps(fuel, pred, c);
        var c1 := EvalExpr(fuel, pred, c).0;
        TidyListInduction(fuel, body, c1);
        if fuel > 0 { TidyInduction(fuel - 1, s, ExecList(fuel, body, c1).0); }
      case DefName(name, n) => AddResolvedKeeps(c, name, Integer(n)); DefinitionNeverBreaks(c, name, Integer(n));
      case DefMethod(name, argCount, code) =>
        AddResolvedKeeps(c, name, Method(argCount, code));
        DefinitionNeverBreaks(c, name, Method(argCount, code));
      case Scope(name, body) =>
        GrammarNameResolves(name, c.currentScope);
        if Resolve(name, c.currentScope).Ok? {
          var path := Resolve(name, c.currentScope).value;
          PathIsNormal(path);
          TidyListInduction(fuel, body, c.(currentScope := path, ns := AddLevel(c.ns, path, ScopeLevel).0));
        }
      case DefDevice(name, body) =>
        AddResolvedKeeps(c, name, Device);
        DefinitionNeverBreaks(c, name, Device);
        GrammarNameResolves(name, c.currentScope);
        AddedResolves(c, name, Device);
        var (c1, r) := AddResolved(c, name, Device);
        if r.Done? {
          var path := Resolve(name, c.currentScope).value;
          PathIsNormal(path);
          TidyListInduction(fuel, body, c1.(currentScope := path, ns := AddLevel(c1.ns, path, DeviceLevel).0));
        }
    }
  }

  lemma DefinitionNeverBreaks(c: Context, name: GrammarName, value: AmlValue)
    ensures !Broke(AddResolved(c, name, value).1)
  {
  }

  /** A list of tidy statements that ends, or that a break or continue ends, has put every scope back. */
  lemma {:induction false} TidyListInduction(fuel: nat, ss: seq<Stmt>, c: Context)
    requires ListTidy(ss)
    ensures KeepsBlock(c, ListEscapes(ss), ExecList(fuel, ss, c))
    decreases fuel, ss
  {
    hide ExecStmt, Tidy, Escapes;
    if ss != [] {
      TidyInduction(fuel, ss[0], c);
      var (c1, out) := ExecStmt(fuel, ss[0], c);
      if out.Done? { TidyListInduction(fuel, ss[1..], c1); }
    }
  }

  /** From any context: no break leaves unless one may, and the scope is the caller's if no call meets a level. */
  lemma TidyKeepsScope(fuel: nat, s: Stmt, c: Context)
    requires Tidy(s)
    ensures var (c', r) := ExecStmt(fuel, s, c);
            && (Broke(r) ==> Escapes(s))
            && (ExecStmt(fuel, s, c.(clean := true)).0.clean && (r.Done? || Broke(r)) ==>
                 c'.currentScope == c.currentScope)
  {
    hide ExecStmt, Tidy, Escapes;
    StmtIgnoresHistory(fuel, s, c, c.(clean := true));
    TidyInduction(fuel, s, c.(clean := true));
  }

  lemma TidyListKeepsScope(fuel: nat, ss: seq<Stmt>, c: Context)
    requires ListTidy(ss)
    ensures var (c', r) := ExecList(fuel, ss, c);
            && (Broke(r) ==> ListEscapes(ss))
            && (ExecList(fuel, ss, c.(clean := true)).0.clean && (r.Done? || Broke(r)) ==>
                 c'.currentScope == c.currentScope)
  {
    hide ExecList, ListTidy, ListEscapes;
    CodeIgnoresHistory(fuel, ss, c, c.(clean := true));
    TidyListInduction(fuel, ss, c.(clean := true));
  }

  // ---- Exactly when a block gives the scope back ----

  predicate IsBlock(s: Stmt) { s.Scope? || s.DefDevice? }

  lemma CleanBlockKeepsScopeIff(fuel: nat, s: Stmt, c: Context)
    requires IsBlock(s) && ListTidy(s.body)
    ensures var (c', r) := ExecStmt(fuel, s, c);
            c'.clean && (r.Done? || Broke(r)) ==>
              && Resolve(s.name, c.currentScope).Ok?
              && (c'.currentScope == c.currentScope <==>
                   r.Done? || Resolve(s.name, c.currentScope).value == c.currentScope)
              && (Broke(r) ==> c'.currentScope == Resolve(s.name, c.currentScope).value)
  {
    hide ExecList, AddLevel, AddResolved, ListTidy, ListEscapes, Resolve, Normalize;
    if Resolve(s.name, c.currentScope).Ok? {
      GrammarNameResolves(s.name, c.currentScope);
      var path := Resolve(s.name, c.currentScope).value;
      PathIsNormal(path);
      if s.Scope? {
        var ns := AddLevel(c.ns, path, ScopeLevel).0;
        TidyListInduction(fuel, s.body, c.(currentScope := path, ns := ns));
      } else {
        DefinitionNeverBreaks(c, s.name, Device);
        var (c1, r) := AddResolved(c, s.name, Device);
        if r.Done? {
          var ns := AddLevel(c1.ns, path, DeviceLevel).0;
          TidyListInduction(fuel, s.body, c1.(currentScope := path, ns := ns));
        }
      }
    } else if s.DefDevice? {
      DefinitionNeverBreaks(c, s.name, Device);
      AddedResolves(c, s.name, Device);
    }
  }

  /**
   A block around tidy code, left by its end, a break or a continue, leaves the caller's scope exactly if it
   ran to its end, or its own scope is the caller's.
   */
  lemma BlockKeepsScopeIff(fuel: nat, s: Stmt, c: Context)
    requires IsBlock(s) && ListTidy(s.body)
    ensures var (c', r) := ExecStmt(fuel, s, c);
            ExecStmt(fuel, s, c.(clean := true)).0.clean && (r.Done? || Broke(r)) ==>
              && Resolve(s.name, c.currentScope).Ok?
              && (c'.currentScope == c.currentScope <==>
                   r.Done? || Resolve(s.name, c.currentScope).value == c.currentScope)
              && (Broke(r) ==> c'.currentScope == Resolve(s.name, c.currentScope).value)
  {
    hide ExecStmt, ListTidy, Resolve;
    StmtIgnoresHistory(fuel, s, c, c.(clean := true));
    CleanBlockKeepsScopeIff(fuel, s, c.(clean := true));
  }

  // ---- An untidy loop ----

  const X: NameSeg := [88, 95, 95, 95]
  const X_NAME: GrammarName := [Segment(X)]
  const X_PATH: PathName := [Root, Segment(X)]

  /** `While (1) { Scope (X) { Break } }` */
  const UNTIDY: Stmt := While(Const(1), [Scope(X_NAME, [BreakStmt])])

  const START: Context := Context(EmptySpace(), None, ROOT_NAME, true)

  /** The loop ends normally, in a clean run, and the current scope is still the block's. */
  lemma UntidyLoopKeepsBlockScope()
    ensures !Tidy(UNTIDY)
    ensures var (c, r) := ExecStmt(0, UNTIDY, START);
            r == Done(()) && c.clean && START.currentScope == ROOT_NAME && c.currentScope == X_PATH
  {
    var body := [Scope(X_NAME, [BreakStmt])];
    assert ListEscapes([BreakStmt]);
    assert !Tidy(body[0]) && !ListTidy(body);
    ParentInvertsChild(ROOT_NAME, X);
    assert [Root] + [Segment(X)] == X_PATH;
    assert Resolve(X_NAME, ROOT_NAME) == Ok(X_PATH);
    PathIsNormal(X_PATH);
    var p := SegsOf(X_PATH);
    assert Init(p) == [] && Walk(START.ns.root, []).Ok?;
    var (ns, added) := AddLevel(START.ns, X_PATH, ScopeLevel);
    assert added == Ok(());
    var c1 := START.(currentScope := X_PATH, ns := ns);
    assert ExecStmt(0, BreakStmt, c1) == (c1, Stop(PBreak));
    assert ExecList(0, [BreakStmt], c1) == (c1, Stop(PBreak));
    assert ExecStmt(0, body[0], START) == (c1, Stop(PBreak));
    assert ExecList(0, body, START) == (c1, Stop(PBreak));
    assert EvalExpr(0, Const(1), START) == (START, Done(Integer(1)));
  }
}
