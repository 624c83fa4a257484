/**
 What single operators, statements and invocations yield, said in terms of values, cells and contexts
 (aml/src/lib.rs:166-387, aml/src/statement.rs:47-272, aml/src/expression.rs:63-712).
 */
module Operators {
  import opened Types
  import opened Names
  import opened Levels
  import opened Namespaces
  import opened Interpreter
  import opened Restoration
  import opened Stores

  // ---- Values ----

  /** Truth and numbers: zero is false and every other number true; true is all ones. */
  lemma ValuesConvert(n: u64, argCount: ArgCount, code: seq<Stmt>)
    ensures AsBool(Integer(n)) == (if n == 0 then Ok(false) else Ok(true)) && AsInteger(Integer(n)) == Ok(n)
    ensures AsBool(Boolean(true)) == Ok(true) && AsInteger(Boolean(true)) == Ok(0xffff_ffff_ffff_ffff)
    ensures AsBool(Boolean(false)) == Ok(false) && AsInteger(Boolean(false)) == Ok(0)
    ensures AsBool(Device) == Err(IncompatibleValueConversion(DeviceType, IntegerType))
    ensures AsInteger(Device) == Err(IncompatibleValueConversion(DeviceType, IntegerType))
    ensures AsBool(Method(argCount, code)) == Err(IncompatibleValueConversion(MethodType, IntegerType))
    ensures AsInteger(Method(argCount, code)) == Err(IncompatibleValueConversion(MethodType, IntegerType))
    ensures AsType(Integer(n), DeviceType) == Err(IncompatibleValueConversion(IntegerType, DeviceType))
    ensures AsType(Device, MethodType) == Err(IncompatibleValueConversion(DeviceType, MethodType))
  {
  }

  /** Outside a method there are no locals and no arguments. */
  lemma NothingOutsideMethods(c: Context, arg: ArgNum, local: LocalNum, value: AmlValue)
    requires c.methodContext == None
    ensures ReadArg(c, arg) == Fail(NotExecutingControlMethod) && ReadLocal(c, local) == Fail(NotExecutingControlMethod)
    ensures StoreTo(c, ArgTarget(arg), value) == (c, Fail(NotExecutingControlMethod))
    ensures StoreTo(c, LocalTarget(local), value) == (c, Fail(NotExecutingControlMethod))
  {
  }

  // ---- Names ----

  /** A name of one segment stands for the value under the longest prefix of the current scope that holds it. */
  lemma FindIsNearest(c: Context, seg: NameSeg, k: int)
    requires IsNearest(c.ns.root, SegsOf(c.currentScope), seg, k)
    ensures var p := SegsOf(c.currentScope)[..k] + [seg];
            Find(c, [Segment(seg)]) == Done((PathOf(p), Lookup(c.ns.root, p).value))
  {
    hide NodeAt, SearchUp;
    SearchFindsNearest(c.ns.root, SegsOf(c.currentScope), seg);
  }

  /** Any other name stands for what is at the path it resolves to. */
  lemma FindResolves(c: Context, name: GrammarName)
    requires !SearchRulesApply(name) && Resolve(name, c.currentScope).Ok?
    requires Resolve(name, c.currentScope).value != ROOT_NAME
    ensures IsPath(Resolve(name, c.currentScope).value)
    ensures var path := Resolve(name, c.currentScope).value;
            match Lookup(c.ns.root, SegsOf(path))
            case Some(h) => Find(c, name) == Done((path, h))
            case None => Find(c, name).Stop? && Find(c, name).propagate.PErr?
  {
    hide NodeAt, Normalize;
    GrammarNameResolves(name, c.currentScope);
  }

  /** Naming an object that is no method yields the object, and does nothing. */
  lemma ObjectIsItsValue(fuel: nat, name: GrammarName, args: seq<Expr>, c: Context)
    requires HandlesLive(c.ns) && Find(c, name).Done?
    ensures var h := Find(c, name).value.1;
            && h in c.ns.objects
            && (!c.ns.objects[h].Method? ==> EvalExpr(fuel, Call(name, args), c) == (c, Done(c.ns.objects[h])))
  {
    hide NodeAt, Search, Resolve, IsSearchable;
    SearchIsLookup(c.ns, name, c.currentScope);
  }

  // ---- Operators ----

  /**
   A store yields its operand's value and leaves it in its target, where it is read back; every other cell
   reads as it did when the operand had been evaluated. An operand that fails is all that happens.
   */
  lemma StoreLeavesValue(fuel: nat, value: Expr, target: Target, c: Context, other: Target)
    ensures var (c1, v) := EvalExpr(fuel, value, c);
            var (c', w) := EvalExpr(fuel, Store(value, target), c);
            && (!v.Done? ==> c' == c1 && w == v)
            && (w.Done? ==> w == v && (!target.NullTarget? ==> ReadTarget(c', target) == w))
            && (v.Done? && (!w.Done? || target.NullTarget?) ==> c' == c1)
            && (SameCell(c1, target, other) || ReadTarget(c', other) == ReadTarget(c1, other))
  {
    hide ReadTarget, SameCell, Find;
    var (c1, v) := EvalExpr(fuel, value, c);
    if v.Done? { StoredIsRead(c1, target, v.value, other); }
  }

  /** A comparison of any operands, left one first, is true exactly if the left value is below the right one. */
  lemma ComparisonCompares(fuel: nat, left: Expr, right: Expr, c: Context)
    ensures var (c1, l) := EvalExpr(fuel, left, c);
            var (c2, r) := EvalExpr(fuel, right, c1);
            var (c', b) := EvalExpr(fuel, LLess(left, right), c);
            && (!l.Done? ==> c' == c1 && b == l)
            && (l.Done? && !r.Done? ==> c' == c2 && b == r)
            && (l.Done? && r.Done? ==> c' == c2)
            && (l.Done? && r.Done? && AsInteger(l.value).Ok? && AsInteger(r.value).Ok? ==>
                 && (AsInteger(l.value).value < AsInteger(r.value).value ==> b == Done(Boolean(true)))
                 && (AsInteger(l.value).value >= AsInteger(r.value).value ==> b == Done(Boolean(false))))
            && (l.Done? && r.Done? && l.value == Device ==> b == Fail(TypeCannotBeCompared(DeviceType)))
            && (l.Done? && r.Done? && AsInteger(l.value).Ok? && r.value == Device ==>
                 b == Fail(IncompatibleValueConversion(DeviceType, IntegerType)))
  {
  }

  /** An addition whose operand fails, left one first, does nothing more. */
  lemma AdditionStopsEarly(fuel: nat, left: Expr, right: Expr, target: Target, c: Context)
    ensures var (c1, l) := EvalExpr(fuel, left, c);
            var (c2, r) := EvalExpr(fuel, right, c1);
            var end := EvalExpr(fuel, Add(left, right, target), c);
            && (!l.Done? ==> end == (c1, l))
            && (l.Done? && !r.Done? ==> end == (c2, r))
            && (l.Done? && r.Done? && AsInteger(l.value).Err? ==> end == (c2, Fail(AsInteger(l.value).error)))
  {
  }

  // ---- Arguments ----

  /** Evaluating `m + n` arguments is evaluating the first `m`, and then, where they left off, the next `n`. */
  lemma {:induction false} ArgumentsSplit(fuel: nat, es: seq<Expr>, m: nat, n: nat, c: Context)
    requires m <= |es|
    ensures var (c1, vs) := EvalArgs(fuel, es, m, c);
            var (c2, ws) := EvalArgs(fuel, es[m..], n, c1);
            EvalArgs(fuel, es, m + n, c) ==
            if !vs.Done? then (c1, vs) else if ws.Done? then (c2, Done(vs.value + ws.value)) else (c2, ws)
    decreases m
  {
    hide EvalExpr;
    if m == 0 {
      assert es[0..] == es;
      var ws := EvalArgs(fuel, es, n, c).1;
      if ws.Done? { assert [] + ws.value == ws.value; }
    } else {
      var (c1, v) := EvalExpr(fuel, es[0], c);
      if v.Done? {
        ArgumentsSplit(fuel, es[1..], m - 1, n, c1);
        assert es[1..][m - 1..] == es[m..];
        var (c2, vs) := EvalArgs(fuel, es[1..], m - 1, c1);
        if vs.Done? {
          var ws := EvalArgs(fuel, es[m..], n, c2).1;
          if ws.Done? { assert [v.value] + (vs.value + ws.value) == [v.value] + vs.value + ws.value; }
        }
      }
    }
  }

  /** One argument is its expression's value; one that is missing ends the stream. */
  lemma OneArgument(fuel: nat, e: Expr, c: Context)
    ensures var (c1, v) := EvalExpr(fuel, e, c);
            var (c2, vs) := EvalArgs(fuel, [e], 1, c);
            c2 == c1 && (if v.Done? then vs == Done([v.value]) else vs == Rethrow(v))
    ensures EvalArgs(fuel, [], 1, c) == (c, Fail(UnexpectedEndOfStream))
  {
    hide EvalExpr;
    assert [e][1..] == [];
    var v := EvalExpr(fuel, e, c).1;
    if v.Done? { assert [v.value] + [] == [v.value]; }
  }

  // ---- Statements ----

  /** The first statement of a list runs before the rest, and only its normal end lets the rest run. */
  lemma {:induction false} ListsRunInOrder(fuel: nat, a: seq<Stmt>, b: seq<Stmt>, c: Context)
    ensures var (c1, out) := ExecList(fuel, a, c);
            ExecList(fuel, a + b, c) == if out.Done? then ExecList(fuel, b, c1) else (c1, out)
    decreases |a|
  {
    hide ExecStmt;
    if a == [] {
      assert a + b == b;
    } else {
      assert (a + b)[0] == a[0] && (a + b)[1..] == a[1..] + b;
      var (c1, out) := ExecStmt(fuel, a[0], c);
      if out.Done? { ListsRunInOrder(fuel, a[1..], b, c1); }
    }
  }

  /** A list of one statement ends as the statement does. */
  lemma OneStatement(fuel: nat, s: Stmt, c: Context)
    ensures ExecList(fuel, [s], c) == ExecStmt(fuel, s, c)
  {
    hide ExecStmt;
    var (c1, out) := ExecStmt(fuel, s, c);
    assert [s][1..] == [] && ExecList(fuel, [], c1) == (c1, Done(()));
    if out.Done? { match out.value case () => assert out == Done(()); }
  }

  /** What the statements without a body do: break, continue, return a value, or drop it. */
  lemma SimpleStatements(fuel: nat, e: Expr, c: Context)
    ensures ExecStmt(fuel, Noop, c) == (c, Done(()))
    ensures ExecStmt(fuel, BreakStmt, c) == (c, Stop(PBreak)) && ExecStmt(fuel, ContinueStmt, c) == (c, Stop(PContinue))
    ensures var (c1, v) := EvalExpr(fuel, e, c);
            && ExecStmt(fuel, Eval(e), c).0 == c1 && ExecStmt(fuel, ReturnStmt(e), c).0 == c1
            && (v.Done? ==> ExecStmt(fuel, Eval(e), c).1 == Done(()))
            && (v.Done? ==> ExecStmt(fuel, ReturnStmt(e), c).1 == Stop(PReturn(v.value)))
            && (forall p :: v == Stop(p) ==>
                 ExecStmt(fuel, Eval(e), c).1 == Stop(p) && ExecStmt(fuel, ReturnStmt(e), c).1 == Stop(p))
  {
    hide EvalExpr;
  }

  /** A conditional tests once: true or a number other than zero takes the first branch, false or zero the other. */
  lemma ConditionalChooses(fuel: nat, pred: Expr, yes: seq<Stmt>, no: seq<Stmt>, c: Context)
    ensures var (c1, v) := EvalExpr(fuel, pred, c);
            var end := ExecStmt(fuel, If(pred, yes, no), c);
            && (forall n: u64 :: v == Done(Integer(n)) && n != 0 ==> end == ExecList(fuel, yes, c1))
            && (v == Done(Boolean(true)) ==> end == ExecList(fuel, yes, c1))
            && (v == Done(Integer(0)) || v == Done(Boolean(false)) ==> end == ExecList(fuel, no, c1))
            && (v == Done(Device) ==> end == (c1, Fail(IncompatibleValueConversion(DeviceType, IntegerType))))
            && (forall p :: v == Stop(p) ==> end == (c1, Stop(p)))
  {
    hide EvalExpr, ExecList;
  }

  /** The value a definition gives its name. */
  function DefinedValue(s: Stmt): AmlValue
    requires s.DefName? || s.DefMethod?
  {
    match s
    case DefName(_, n) => Integer(n)
    case DefMethod(_, argCount, code) => Method(argCount, code)
  }

  /** After a definition its name's path holds a new handle, under which the number or the method is recorded. */
  lemma DefinitionDefines(fuel: nat, s: Stmt, c: Context)
    requires (s.DefName? || s.DefMethod?) && ExecStmt(fuel, s, c).1.Done?
    ensures var c' := ExecStmt(fuel, s, c).0;
            var path := Resolve(s.name, c.currentScope);
            && path.Ok? && IsPath(path.value) && path.value != ROOT_NAME && c'.currentScope == c.currentScope
            && GetHandle(c'.ns, path.value) == Ok(c.ns.nextHandle)
            && c'.ns.objects == c.ns.objects[c.ns.nextHandle := DefinedValue(s)]
            && (s.DefName? ==> c'.ns.objects[c.ns.nextHandle] == Integer(s.n))
            && (s.DefMethod? ==> c'.ns.objects[c.ns.nextHandle] == Method(s.argCount, s.code))
  {
    hide NodeAt, Resolve, AddValue, GetHandle;
    DefinedIsFound(c, s.name, DefinedValue(s));
    AddResolvedKeeps(c, s.name, DefinedValue(s));
  }

  /** A scope block runs its body with its level in place and as current scope, and then returns to the old one. */
  lemma ScopeRunsInside(fuel: nat, name: GrammarName, body: seq<Stmt>, c: Context) returns (c1: Context)
    requires Resolve(name, c.currentScope).Ok?
    requires AddScope(c.ns, name, c.currentScope).1.Ok?
    ensures IsPath(Resolve(name, c.currentScope).value)
    ensures var path := Resolve(name, c.currentScope).value;
            && c1.currentScope == path && HasLevel(c1.ns.root, SegsOf(path)) && LevelsGrow(c.ns.root, c1.ns.root)
            && c1.ns.objects == c.ns.objects && c1.methodContext == c.methodContext
            && Abs(c1.ns.root) == WithLevel(Abs(c.ns.root), SegsOf(path), ScopeLevel)
    ensures var (c2, out) := ExecList(fuel, body, c1);
            ExecStmt(fuel, Scope(name, body), c) ==
            if out.Done? then (c2.(currentScope := c.currentScope), out) else (c2, out)
  {
    hide ExecList, AddLevel, NodeAt, Resolve;
    GrammarNameResolves(name, c.currentScope);
    var path := Resolve(name, c.currentScope).value;
    PathIsNormal(path);
    AddLevelKeeps(c.ns, path, ScopeLevel);
    AddedLevel(c.ns, path, ScopeLevel);
    c1 := c.(currentScope := path, ns := AddLevel(c.ns, path, ScopeLevel).0);
  }

  /** A level that is already there keeps its type; a new one gets the type given. */
  ghost function WithLevel(f: Flat, p: Segs, typ: LevelType): Flat {
    if p in f.levels then f else f.(levels := f.levels[p := typ])
  }

  lemma AddedLevel(ns: Space<AmlValue>, path: PathName, typ: LevelType)
    requires IsRooted(path) && AddLevel(ns, path, typ).1.Ok?
    ensures Abs(AddLevel(ns, path, typ).0.root) == WithLevel(Abs(ns.root), SegsOf(path), typ)
  {
    hide NodeAt, AddLevelAt;
    PathIsNormal(path);
    if path == ROOT_NAME {
      RootHasLevel(ns.root);
      HasLevelIsFlat(ns.root, []);
      assert SegsOf(path) == [];
    } else {
      AddLevelRefines(ns, SegsOf(path), typ);
    }
  }

  /** The namespace with the scope's level made. */
  function AddScope(ns: Space<AmlValue>, name: GrammarName, scope: PathName): (Space<AmlValue>, Result<()>)
    requires Resolve(name, scope).Ok?
  {
    GrammarNameResolves(name, scope);
    PathIsNormal(Resolve(name, scope).value);
    AddLevel(ns, Resolve(name, scope).value, ScopeLevel)
  }

  lemma AddedSameLevels(c: Context, name: GrammarName, value: AmlValue)
    requires AddResolved(c, name, value).1.Done?
    ensures Abs(AddResolved(c, name, value).0.ns.root).levels == Abs(c.ns.root).levels
  {
    hide NodeAt, Resolve, AddValueAt;
    GrammarNameResolves(name, c.currentScope);
    var path := Resolve(name, c.currentScope).value;
    PathIsNormal(path);
    AddValueRefines(c.ns, SegsOf(path), value);
  }

  /** A device block first defines the device at its path, and makes its level. */
  lemma DeviceIsMade(fuel: nat, name: GrammarName, c: Context)
    requires ExecStmt(fuel, DefDevice(name, []), c).1.Done?
    ensures var c' := ExecStmt(fuel, DefDevice(name, []), c).0;
            var path := Resolve(name, c.currentScope);
            && path.Ok? && IsPath(path.value) && path.value != ROOT_NAME
            && c'.currentScope == c.currentScope && HasLevel(c'.ns.root, SegsOf(path.value))
            && c'.ns.objects == c.ns.objects[c.ns.nextHandle := Device]
            && Abs(c'.ns.root).levels == WithLevel(Abs(c.ns.root), SegsOf(path.value), DeviceLevel).levels
  {
    hide NodeAt, Resolve, AddValue, GetHandle, AddLevel;
    DefinedIsFound(c, name, Device);
    AddResolvedKeeps(c, name, Device);
    GrammarNameResolves(name, c.currentScope);
    AddedResolves(c, name, Device);
    var path := Resolve(name, c.currentScope).value;
    PathIsNormal(path);
    var c1 := AddResolved(c, name, Device).0;
    AddLevelKeeps(c1.ns, path, DeviceLevel);
    AddedLevel(c1.ns, path, DeviceLevel);
    AddedSameLevels(c, name, Device);
    var c2 := c1.(currentScope := path, ns := AddLevel(c1.ns, path, DeviceLevel).0);
    assert ExecList(fuel, [], c2) == (c2, Done(()));
    assert ExecStmt(fuel, DefDevice(name, []), c).0 == c2.(currentScope := c.currentScope);
  }

  // ---- Invocations ----

  /** A method sees the values it was called with as its arguments, no others, and no locals that are set. */
  lemma EnteredReads(path: PathName, args: seq<AmlValue>, c: Context, arg: ArgNum, local: LocalNum)
    requires |args| <= 7
    ensures ReadArg(Enter(path, args, c), arg) == if arg < |args| then Done(args[arg]) else Fail(InvalidArgAccess(arg))
    ensures ReadLocal(Enter(path, args, c), local) == Fail(InvalidLocalAccess(local))
  {
  }

  /** A method that returns an expression yields its value, from the context the method is entered in. */
  lemma ReturnedIsYielded(fuel: nat, path: PathName, args: seq<AmlValue>, e: Expr, v: AmlValue, c: Context)
    requires path != ROOT_NAME && |args| <= 7 && IsMethodAt(c, path) && IsRooted(path)
    requires c.ns.objects[GetHandle(c.ns, path).value].code == [ReturnStmt(e)]
    requires var c1 := Enter(path, args, c).(ns := AddLevel(c.ns, path, MethodLocals).0);
             var (c2, out) := EvalExpr(fuel, e, c1);
             out == Done(v) && HasLevel(c2.ns.root, SegsOf(path))
    ensures var (c', r) := Invoke(fuel, path, args, c);
            r == Done(v) && c'.methodContext == c.methodContext && c'.currentScope == c.currentScope
  {
    hide Invoke, EvalExpr, AddLevel, HasLevel, GetHandle, Enter;
    var c1 := Enter(path, args, c).(ns := AddLevel(c.ns, path, MethodLocals).0);
    OneStatement(fuel, ReturnStmt(e), c1);
    SimpleStatements(fuel, e, c1);
    RestoresIffLevelSurvives(fuel, path, args, c);
  }

  lemma {:induction false} ConstantsEvaluate(fuel: nat, ns: seq<u64>, c: Context)
    ensures var es, vs := seq(|ns|, i requires 0 <= i < |ns| => Const(ns[i])), IntegersOf(ns);
            EvalArgs(fuel, es, |ns|, c) == (c, Done(vs))
    decreases |ns|
  {
    if ns != [] {
      ConstantsEvaluate(fuel, ns[1..], c);
      var es := seq(|ns|, i requires 0 <= i < |ns| => Const(ns[i]));
      assert es[1..] == seq(|ns| - 1, i requires 0 <= i < |ns| - 1 => Const(ns[1..][i]));
      assert [Integer(ns[0])] + IntegersOf(ns[1..]) == IntegersOf(ns);
    }
  }

  function IntegersOf(ns: seq<u64>): (vs: seq<AmlValue>)
    ensures |vs| == |ns| && forall i :: 0 <= i < |ns| ==> vs[i] == Integer(ns[i])
  {
    seq(|ns|, i requires 0 <= i < |ns| => Integer(ns[i]))
  }

  /** From the call to the result: a method that returns its argument `i` yields the `i`-th value it is called with. */
  lemma CallPassesArguments(fuel: nat, name: GrammarName, ns: seq<u64>, i: ArgNum, c: Context)
    requires fuel > 0 && i < |ns| <= 7 && Find(c, name).Done? && Find(c, name).value.1 in c.ns.objects
    requires c.ns.objects[Find(c, name).value.1] == Method(|ns|, [ReturnStmt(ArgObj(i))])
    ensures var es := seq(|ns|, k requires 0 <= k < |ns| => Const(ns[k]));
            EvalExpr(fuel, Call(name, es), c).1 == Done(Integer(ns[i]))
  {
    hide NodeAt, Search, Resolve, AddLevel, Invoke, Lookup;
    var (path, h) := Find(c, name).value;
    SearchIsLookup(c.ns, name, c.currentScope);
    HandleOfLookup(c.ns, path, h);
    ConstantsEvaluate(fuel, ns, c);
    var args := IntegersOf(ns);
    RestoresIffLevelSurvives(fuel - 1, path, args, c);
    ReturnedIsYielded(fuel - 1, path, args, ArgObj(i), args[i], c);
  }

  lemma HandleOfLookup(ns: Space<AmlValue>, path: PathName, h: u32)
    requires path != ROOT_NAME && Lookup(ns.root, SegsOf(path)) == Some(h)
    ensures GetHandle(ns, path) == Ok(h)
  {
    hide NodeAt;
  }
}
