/**
 Why restoration needs its condition: a method that calls itself once. The inner call removes the level both
 calls share, so the outer one fails on its way out and leaves its own context behind (aml/src/lib.rs:182, 216).
 */
module Reentry {
  import opened Types
  import opened Names
  import opened Levels
  import opened Namespaces
  import opened Interpreter

  const M: NameSeg := [77, 95, 95, 95]
  const M_NAME: GrammarName := [Segment(M)]
  const M_PATH: PathName := [Root, Segment(M)]

  /** `Method (M, 1) { If (Arg0) { M (0) } }` */
  const CODE: seq<Stmt> := [If(ArgObj(0), [Eval(Call(M_NAME, [Const(0)]))], [])]

  const BARE: Level := Level(ScopeLevel, map[], map[M := 0])
  const LOCALS: Level := Level(ScopeLevel, map[M := NewLevel(MethodLocals)], map[M := 0])
  const OBJECTS: map<u32, AmlValue> := map[0 := Method(1, CODE)]

  function SpaceOf(root: Level): Space<AmlValue> { Space(1, OBJECTS, root) }

  const START: Context := Context(SpaceOf(BARE), None, ROOT_NAME, true)

  lemma PathFacts()
    ensures SegsOf(M_PATH) == [M] && Init([M]) == [] && PathOf([M]) == M_PATH && IsRooted(M_PATH) && M_PATH != ROOT_NAME
    ensures Normalize(M_PATH) == Ok(M_PATH) && IsPath(M_PATH)
  {
    PathOfSegs(M_PATH);
    PathIsNormal(M_PATH);
  }

  lemma LevelSteps()
    ensures IsRooted(M_PATH)
    ensures AddLevel(SpaceOf(BARE), M_PATH, MethodLocals) == (SpaceOf(LOCALS), Ok(()))
    ensures AddLevel(SpaceOf(LOCALS), M_PATH, MethodLocals) == (SpaceOf(LOCALS), Ok(()))
    ensures RemoveLevel(SpaceOf(LOCALS), M_PATH) == (SpaceOf(BARE), Ok(()))
    ensures RemoveLevel(SpaceOf(BARE), M_PATH) == (SpaceOf(BARE), Err(LevelDoesNotExist(M_PATH)))
    ensures HasLevel(LOCALS, [M])
  {
    PathFacts();
    assert [M][1..] == [];
    assert NodeAt(NewLevel(MethodLocals), []).Some?;
    assert NodeAt(LOCALS, [M]) == NodeAt(NewLevel(MethodLocals), [M][1..]);
    assert Walk(BARE, []) == Ok(BARE) && Walk(LOCALS, []) == Ok(LOCALS);
    assert LOCALS.children - {M} == map[];
  }

  lemma Lookups()
    ensures M_PATH != ROOT_NAME
    ensures GetHandle(SpaceOf(BARE), M_PATH) == Ok(0) && GetHandle(SpaceOf(LOCALS), M_PATH) == Ok(0)
    ensures IsSearchable(M_NAME, M_PATH) && Search(SpaceOf(LOCALS), M_NAME, M_PATH) == Ok((M_PATH, 0))
  {
    PathFacts();
    assert Walk(BARE, []) == Ok(BARE) && Walk(LOCALS, []) == Ok(LOCALS);
    var root := LOCALS;
    assert [M] + [M] == [M, M] && Init([M, M]) == [M] && [M][1..] == [];
    assert NodeAt(root, [M]) == Some(Node(MethodLocals, map[]));
    assert Lookup(root, [M] + [M]) == None;
    assert [] + [M] == [M];
    assert Lookup(root, [] + [M]) == Some(0);
    assert SearchUp(root, [], M) == Ok((M_PATH, 0));
    assert SearchUp(root, [M], M) == SearchUp(root, [], M);
  }

  /** The inner call, with a false argument, ends well and takes the shared level with it. */
  lemma InnerCall(c: Context)
    requires c.ns == SpaceOf(LOCALS)
    ensures M_PATH != ROOT_NAME
    ensures Invoke(0, M_PATH, [Integer(0)], c) == (c.(ns := SpaceOf(BARE), clean := false), Done(Integer(0)))
  {
    hide AddLevel, RemoveLevel, GetHandle;
    PathFacts();
    LevelSteps();
    Lookups();
    var c1 := Enter(M_PATH, [Integer(0)], c);
    assert ReadArg(c1, 0) == Done(Integer(0));
    assert ExecList(0, [], c1) == (c1, Done(()));
    assert ExecStmt(0, CODE[0], c1) == (c1, Done(()));
    assert CODE[1..] == [];
    assert ExecList(0, CODE, c1) == (c1, Done(()));
    assert c1.(ns := SpaceOf(LOCALS)) == c1;
  }

  lemma OneArg(c: Context)
    ensures EvalArgs(1, [Const(0)], 1, c) == (c, Done([Integer(0)]))
  {
    var es := [Const(0)];
    assert EvalExpr(1, es[0], c) == (c, Done(Integer(0)));
    assert EvalArgs(1, es[1..], 0, c) == (c, Done([]));
    assert [Integer(0)] + [] == [Integer(0)];
  }

  lemma BodyOf(c1: Context)
    requires c1.ns == SpaceOf(LOCALS) && c1.currentScope == M_PATH && ReadArg(c1, 0) == Done(Integer(1))
    ensures ExecList(1, CODE, c1) == (c1.(ns := SpaceOf(BARE), clean := false), Done(()))
  {
    hide Search, Invoke;
    PathFacts();
    Lookups();
    InnerCall(c1);
    var call := Call(M_NAME, [Const(0)]);
    var c2 := c1.(ns := SpaceOf(BARE), clean := false);
    assert Find(c1, M_NAME) == Done((M_PATH, 0));
    OneArg(c1);
    assert EvalExpr(1, call, c1) == (c2, Done(Integer(0)));
    assert ExecStmt(1, Eval(call), c1) == (c2, Done(()));
    assert [Eval(call)][1..] == [] && CODE[1..] == [];
    assert ExecList(1, [Eval(call)], c1) == (c2, Done(()));
    assert ExecStmt(1, CODE[0], c1) == (c2, Done(()));
  }

  /** The outer call: an error, and the caller's scope and (absent) method context are not back. */
  lemma ReentryLosesContext()
    ensures M_PATH != ROOT_NAME
    ensures var (c, r) := Invoke(1, M_PATH, [Integer(1)], START);
            && r == Fail(LevelDoesNotExist(M_PATH))
            && START.currentScope == ROOT_NAME && c.currentScope == M_PATH
            && START.methodContext == None && c.methodContext.Some?
            && !c.clean
  {
    hide AddLevel, RemoveLevel, GetHandle, ExecList;
    PathFacts();
    LevelSteps();
    Lookups();
    var c1 := Enter(M_PATH, [Integer(1)], START).(ns := SpaceOf(LOCALS));
    assert ReadArg(c1, 0) == Done(Integer(1));
    BodyOf(c1);
  }
}
