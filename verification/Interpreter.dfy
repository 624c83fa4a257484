/**
 Control methods (aml/src/lib.rs:93-387, aml/src/statement.rs, aml/src/expression.rs:602-712): what a
 program does to the context, as a big-step evaluation whose fuel bounds loops and calls.
 */
module Interpreter {
  import opened Types
  import opened Names
  import opened Levels
  import opened Namespaces

  // ---- Programs ----

  type ArgNum = n: int | 0 <= n < 7
  type ArgCount = n: int | 0 <= n <= 7
  type LocalNum = n: int | 0 <= n < 8

  datatype AmlValue = Boolean(b: bool) | Integer(n: u64) | Device | Method(argCount: ArgCount, code: seq<Stmt>)

  datatype Target =
    | NullTarget
    | NameTarget(name: GrammarName)
    | DebugTarget
    | ArgTarget(arg: ArgNum)
    | LocalTarget(local: LocalNum)

  datatype Expr =
    | Const(n: u64)
    | ArgObj(arg: ArgNum)
    | LocalObj(local: LocalNum)
    | Store(value: Expr, target: Target)
    | Add(left: Expr, right: Expr, target: Target)
    | LLess(left: Expr, right: Expr)
    | Call(name: GrammarName, args: seq<Expr>)

  datatype Stmt =
    | Eval(e: Expr)
    | Noop
    | BreakStmt
    | ContinueStmt
    | ReturnStmt(e: Expr)
    | If(pred: Expr, thenBranch: seq<Stmt>, elseBranch: seq<Stmt>)
    | While(pred: Expr, body: seq<Stmt>)
    | DefName(name: GrammarName, n: u64)
    | DefMethod(name: GrammarName, argCount: ArgCount, code: seq<Stmt>)
    | Scope(name: GrammarName, body: seq<Stmt>)
    | DefDevice(name: GrammarName, body: seq<Stmt>)

  // ---- The context ----

  type Locals = s: seq<Option<AmlValue>> | |s| == 8 witness seq(8, _ => None)
  type Args = s: seq<Option<AmlValue>> | |s| == 7 witness seq(7, _ => None)

  datatype MethodContext = MethodContext(locals: Locals, args: Args)

  /**
   The interpreter's state. `clean` is a history variable that no step reads (`History`): it stays true as long as no
   invoked method's path had a level at the time of the call.
   */
  datatype Context = Context(
    ns: Space<AmlValue>,
    methodContext: Option<MethodContext>,
    currentScope: PathName,
    clean: bool)

  datatype Propagate = PErr(error: AmlError) | PReturn(value: AmlValue) | PBreak | PContinue

  /** `Panic` stands for the source's panics, `Timeout` for fuel running out. */
  datatype Outcome<+T> = Done(value: T) | Stop(propagate: Propagate) | Panic | Timeout

  function Fail<T>(e: AmlError): Outcome<T> { Stop(PErr(e)) }

  // ---- Values ----

  function TypeOf(v: AmlValue): AmlType {
    match v
    case Boolean(_) => IntegerType
    case Integer(_) => IntegerType
    case Device => DeviceType
    case Method(_, _) => MethodType
  }

  function AsInteger(v: AmlValue): Result<u64> {
    match v
    case Integer(n) => Ok(n)
    case Boolean(b) => Ok(if b then 0xffff_ffff_ffff_ffff else 0)
    case _ => Err(IncompatibleValueConversion(TypeOf(v), IntegerType))
  }

  function AsBool(v: AmlValue): Result<bool> {
    match v
    case Boolean(b) => Ok(b)
    case Integer(n) => Ok(n != 0)
    case _ => Err(IncompatibleValueConversion(TypeOf(v), IntegerType))
  }

  function AsType(v: AmlValue, typ: AmlType): Result<AmlValue> {
    if TypeOf(v) == typ then Ok(v)
    else if typ == IntegerType then
      match AsInteger(v)
      case Ok(n) => Ok(Integer(n))
      case Err(e) => Err(e)
    else Err(IncompatibleValueConversion(TypeOf(v), typ))
  }

  // ---- Reading and storing ----

  function ReadLocal(ctx: Context, local: LocalNum): Outcome<AmlValue> {
    match ctx.methodContext
    case None => Fail(NotExecutingControlMethod)
    case Some(m) => if m.locals[local].None? then Fail(InvalidLocalAccess(local)) else Done(m.locals[local].value)
  }

  function ReadArg(ctx: Context, arg: ArgNum): Outcome<AmlValue> {
    match ctx.methodContext
    case None => Fail(NotExecutingControlMethod)
    case Some(m) => if m.args[arg].None? then Fail(InvalidArgAccess(arg)) else Done(m.args[arg].value)
  }

  /** A search from the current scope; one for the root panics. */
  function Find(ctx: Context, name: GrammarName): Outcome<(AmlName, u32)> {
    if !IsSearchable(name, ctx.currentScope) then Panic
    else match Search(ctx.ns, name, ctx.currentScope)
      case Err(e) => Fail(e)
      case Ok(found) => Done(found)
  }

  function StoreTo(ctx: Context, target: Target, value: AmlValue): (Context, Outcome<AmlValue>) {
    match target
    case NullTarget => (ctx, Done(value))
    case DebugTarget => (ctx, Panic)
    case ArgTarget(arg) =>
      (match ctx.methodContext
       case None => (ctx, Fail(NotExecutingControlMethod))
       case Some(m) => (ctx.(methodContext := Some(m.(args := m.args[arg := Some(value)]))), Done(value)))
    case LocalTarget(local) =>
      (match ctx.methodContext
       case None => (ctx, Fail(NotExecutingControlMethod))
       case Some(m) => (ctx.(methodContext := Some(m.(locals := m.locals[local := Some(value)]))), Done(value)))
    case NameTarget(name) =>
      match Find(ctx, name)
      case Done((_, h)) =>
        if h !in ctx.ns.objects then (ctx, Panic)
        else (match AsType(value, TypeOf(ctx.ns.objects[h]))
              case Err(e) => (ctx, Fail(e))
              case Ok(v) => (ctx.(ns := ctx.ns.(objects := ctx.ns.objects[h := v])), Done(v)))
      case Stop(p) => (ctx, Stop(p))
      case Panic => (ctx, Panic)
      case Timeout => (ctx, Timeout)
  }

  /** `read_target`; reading the null and debug targets is not implemented. */
  function ReadTarget(ctx: Context, target: Target): Outcome<AmlValue> {
    match target
    case ArgTarget(arg) => ReadArg(ctx, arg)
    case LocalTarget(local) => ReadLocal(ctx, local)
    case NameTarget(name) =>
      (match Find(ctx, name)
       case Done((_, h)) => if h in ctx.ns.objects then Done(ctx.ns.objects[h]) else Panic
       case Stop(p) => Stop(p)
       case Panic => Panic
       case Timeout => Timeout)
    case _ => Panic
  }

  /** `add_value_at_resolved_path`. */
  function AddResolved(ctx: Context, name: GrammarName, value: AmlValue): (Context, Outcome<()>) {
    match Resolve(name, ctx.currentScope)
    case Err(e) => (ctx, Fail(e))
    case Ok(path) =>
      GrammarNameResolves(name, ctx.currentScope);
      if path == ROOT_NAME then (ctx, Panic) else
        PathIsNormal(path);
        var (ns, r) := AddValue(ctx.ns, path, value);
        (ctx.(ns := ns), if r.Ok? then Done(()) else Fail(r.error))
  }

  /** Whatever was added resolved, and not to the root. */
  lemma AddedResolves(c: Context, name: GrammarName, value: AmlValue)
    ensures AddResolved(c, name, value).1.Done? ==>
              Resolve(name, c.currentScope).Ok? && Resolve(name, c.currentScope).value != ROOT_NAME
  {
  }

  /** An outcome that is not a value, whatever its value type. */
  function Rethrow<T, U>(o: Outcome<T>): Outcome<U>
    requires !o.Done?
  {
    match o case Stop(p) => Stop(p) case Panic => Panic case Timeout => Timeout
  }

  // ---- Evaluation ----

  function EvalExpr(fuel: nat, e: Expr, ctx: Context): (Context, Outcome<AmlValue>)
    decreases fuel, e
  {
    match e
    case Const(n) => (ctx, Done(Integer(n)))
    case ArgObj(arg) => (ctx, ReadArg(ctx, arg))
    case LocalObj(local) => (ctx, ReadLocal(ctx, local))
    case Store(value, target) =>
      (var (c1, v) := EvalExpr(fuel, value, ctx);
       if !v.Done? then (c1, v) else StoreTo(c1, target, v.value))
    case Add(left, right, target) =>
      (var (c1, l) := EvalExpr(fuel, left, ctx);
       if !l.Done? then (c1, l) else
         var (c2, r) := EvalExpr(fuel, right, c1);
         if !r.Done? then (c2, r) else FinishAdd(c2, l.value, r.value, target))
    case LLess(left, right) =>
      (var (c1, l) := EvalExpr(fuel, left, ctx);
       if !l.Done? then (c1, l) else
         var (c2, r) := EvalExpr(fuel, right, c1);
         if !r.Done? then (c2, r) else (c2, Less(l.value, r.value)))
    case Call(name, args) =>
      match Find(ctx, name)
      case Done((path, h)) =>
        if h !in ctx.ns.objects || !IsPath(path) || path == ROOT_NAME then (ctx, Panic)
        else if !ctx.ns.objects[h].Method? then (ctx, Done(ctx.ns.objects[h]))
        else
          var (c1, vs) := EvalArgs(fuel, args, ctx.ns.objects[h].argCount, ctx);
          if !vs.Done? then (c1, Rethrow(vs))
          else if |vs.value| > 7 then (c1, Fail(TooManyArgs))
          else if fuel == 0 then (c1, Timeout)
          else Invoke(fuel - 1, path, vs.value, c1)
      case Stop(p) => (ctx, Stop(p))
      case Panic => (ctx, Panic)
      case Timeout => (ctx, Timeout)
  }

  function WrappingAdd(a: u64, b: u64): u64 {
    var sum: nat := a as nat + b as nat;
    sum % 0x1_0000_0000_0000_0000
  }

  function FinishAdd(ctx: Context, l: AmlValue, r: AmlValue, target: Target): (Context, Outcome<AmlValue>) {
    var a, b := AsInteger(l), AsInteger(r);
    if a.Err? then (ctx, Fail(a.error))
    else if b.Err? then (ctx, Fail(b.error))
    else
      var sum := Integer(WrappingAdd(a.value, b.value));
      var (c, o) := StoreTo(ctx, target, sum);
      (c, if o.Done? then Done(sum) else o)
  }

  function Less(l: AmlValue, r: AmlValue): Outcome<AmlValue> {
    if TypeOf(l) != IntegerType then Fail(TypeCannotBeCompared(TypeOf(l)))
    else
      var a, b := AsInteger(l), AsInteger(r);
      if b.Err? then Fail(b.error) else Done(Boolean(a.value < b.value))
  }

  /** The first `n` arguments, left to right; a stream that holds fewer ends too early. */
  function EvalArgs(fuel: nat, es: seq<Expr>, n: nat, ctx: Context): (Context, Outcome<seq<AmlValue>>)
    decreases fuel, es
  {
    if n == 0 then (ctx, Done([]))
    else if es == [] then (ctx, Fail(UnexpectedEndOfStream))
    else
      var (c1, v) := EvalExpr(fuel, es[0], ctx);
      if !v.Done? then (c1, Rethrow(v)) else
        var (c2, vs) := EvalArgs(fuel, es[1..], n - 1, c1);
        (c2, if vs.Done? then Done([v.value] + vs.value) else vs)
  }

  function NewMethodContext(args: seq<AmlValue>): MethodContext
    requires |args| <= 7
  {
    MethodContext(seq(8, _ => None), seq(7, i requires 0 <= i < 7 => if i < |args| then Some(args[i]) else None))
  }

  /** What leaves a method's body becomes a value or an error. */
  function ReturnValue(o: Outcome<()>): Outcome<AmlValue> {
    match o
    case Done(_) => Done(Integer(0))
    case Stop(PReturn(v)) => Done(v)
    case Stop(PBreak) => Fail(BreakInInvalidPosition)
    case Stop(PContinue) => Fail(ContinueInInvalidPosition)
    case Stop(PErr(e)) => Fail(e)
    case Panic => Panic
    case Timeout => Timeout
  }

  /** The context a method body starts in, before its level is made. */
  function Enter(path: PathName, args: seq<AmlValue>, ctx: Context): Context
    requires |args| <= 7
  {
    ctx.(methodContext := Some(NewMethodContext(args)),
         currentScope := path,
         clean := ctx.clean && !HasLevel(ctx.ns.root, SegsOf(path)))
  }

  /** `invoke_method`. The two early exits, on `add_level` and `remove_level`, restore nothing. */
  function Invoke(fuel: nat, path: PathName, args: seq<AmlValue>, ctx: Context): (Context, Outcome<AmlValue>)
    requires path != ROOT_NAME && |args| <= 7
    decreases fuel
  {
    match GetHandle(ctx.ns, path)
    case Err(e) => (ctx, Fail(e))
    case Ok(h) =>
      if h !in ctx.ns.objects then (ctx, Panic)
      else if !ctx.ns.objects[h].Method? then (ctx, Done(ctx.ns.objects[h]))
      else
        PathIsNormal(path);
        var entered := Enter(path, args, ctx);
        var (ns1, added) := AddLevel(ctx.ns, path, MethodLocals);
        var c1 := entered.(ns := ns1);
        if added.Err? then (c1, Fail(added.error)) else
          var (c2, out) := ExecList(fuel, ctx.ns.objects[h].code, c1);
          if out.Panic? || out.Timeout? then (c2, ReturnValue(out)) else
            var (ns3, removed) := RemoveLevel(c2.ns, path);
            var c3 := c2.(ns := ns3);
            if removed.Err? then (c3, Fail(removed.error))
            else (c3.(methodContext := ctx.methodContext, currentScope := ctx.currentScope), ReturnValue(out))
  }

  function ExecStmt(fuel: nat, s: Stmt, ctx: Context): (Context, Outcome<()>)
    decreases fuel, s
  {
    match s
    case Noop => (ctx, Done(()))
    case BreakStmt => (ctx, Stop(PBreak))
    case ContinueStmt => (ctx, Stop(PContinue))
    case Eval(e) => (var (c, v) := EvalExpr(fuel, e, ctx); (c, if v.Done? then Done(()) else Rethrow(v)))
    case ReturnStmt(e) =>
      (var (c, v) := EvalExpr(fuel, e, ctx); (c, if v.Done? then Stop(PReturn(v.value)) else Rethrow(v)))
    case If(pred, thenBranch, elseBranch) =>
      (var (c, v) := EvalExpr(fuel, pred, ctx);
       if !v.Done? then (c, Rethrow(v)) else
         match AsBool(v.value)
         case Err(e) => (c, Fail(e))
         case Ok(b) => if b then ExecList(fuel, thenBranch, c) else ExecList(fuel, elseBranch, c))
    case While(pred, body) =>
      (var (c, v) := EvalExpr(fuel, pred, ctx);
       if !v.Done? then (c, Rethrow(v)) else
         match AsBool(v.value)
         case Err(e) => (c, Fail(e))
         case Ok(b) =>
           if !b then (c, Done(())) else
             var (c1, out) := ExecList(fuel, body, c);
             if out == Stop(PBreak) then (c1, Done(()))
             else if !out.Done? && out != Stop(PContinue) then (c1, out)
             else if fuel == 0 then (c1, Timeout)
             else ExecStmt(fuel - 1, s, c1))
    case DefName(name, n) => AddResolved(ctx, name, Integer(n))
    case DefMethod(name, argCount, code) => AddResolved(ctx, name, Method(argCount, code))
    case Scope(name, body) =>
      (match Resolve(name, ctx.currentScope)
       case Err(e) => (ctx, Fail(e))
       case Ok(path) =>
         GrammarNameResolves(name, ctx.currentScope);
         PathIsNormal(path);
         var (ns, added) := AddLevel(ctx.ns, path, ScopeLevel);
         var c := ctx.(currentScope := path, ns := ns);
         if added.Err? then (c, Fail(added.error)) else Leave(ctx.currentScope, ExecList(fuel, body, c)))
    case DefDevice(name, body) =>
      var (c, r) := AddResolved(ctx, name, Device);
      if !r.Done? then (c, r) else
        GrammarNameResolves(name, ctx.currentScope);
        var path := Resolve(name, ctx.currentScope).value;
        PathIsNormal(path);
        var (ns, added) := AddLevel(c.ns, path, DeviceLevel);
        if added.Err? then (c.(ns := ns), Fail(added.error))
        else Leave(ctx.currentScope, ExecList(fuel, body, c.(currentScope := path, ns := ns)))
  }

  /** The end of a scope's block: only a block that ran to its end puts the old scope back. */
  function Leave(scope: PathName, r: (Context, Outcome<()>)): (Context, Outcome<()>) {
    if r.1.Done? then (r.0.(currentScope := scope), r.1) else r
  }

  function ExecList(fuel: nat, ss: seq<Stmt>, ctx: Context): (Context, Outcome<()>)
    decreases fuel, ss
  {
    if ss == [] then (ctx, Done(())) else
      var (c, out) := ExecStmt(fuel, ss[0], ctx);
      if out.Done? then ExecList(fuel, ss[1..], c) else (c, out)
  }
}
