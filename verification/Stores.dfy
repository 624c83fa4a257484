/** What a store, a definition and a call leave to be read (aml/src/lib.rs:294-387, aml/src/namespace.rs:149-158). */
module Stores {
  import opened Types
  import opened Names
  import opened Levels
  import opened Namespaces
  import opened Interpreter

  /** Both targets stand for the same argument, local or object. */
  predicate SameCell(c: Context, a: Target, b: Target) {
    match (a, b)
    case (ArgTarget(i), ArgTarget(j)) => i == j
    case (LocalTarget(i), LocalTarget(j)) => i == j
    case (NameTarget(m), NameTarget(n)) =>
      Find(c, m).Done? && Find(c, n).Done? && Find(c, m).value.1 == Find(c, n).value.1
    case _ => false
  }

  /** A target reads back what its store returned, every other cell reads as before, and a failed store does nothing. */
  lemma StoredIsRead(c: Context, target: Target, value: AmlValue, other: Target)
    ensures var (c', r) := StoreTo(c, target, value);
            && (!r.Done? ==> c' == c)
            && (r.Done? && !target.NullTarget? ==> ReadTarget(c', target) == r)
            && (SameCell(c, target, other) || ReadTarget(c', other) == ReadTarget(c, other))
  {
    hide IsSearchable, Search;
    var c' := StoreTo(c, target, value).0;
    if target.NameTarget? && IsSearchable(target.name, c.currentScope) {
      SearchIgnoresObjects(c.ns, c'.ns, target.name, c.currentScope);
    }
    if other.NameTarget? && IsSearchable(other.name, c.currentScope) {
      SearchIgnoresObjects(c.ns, c'.ns, other.name, c.currentScope);
    }
  }

  /** An addition of any operands yields, and leaves in any target, the sum of their values modulo 2^64. */
  lemma AddLeavesSum(fuel: nat, left: Expr, right: Expr, target: Target, c: Context)
    ensures var (c1, l) := EvalExpr(fuel, left, c);
            var (c2, r) := EvalExpr(fuel, right, c1);
            var (c', sum) := EvalExpr(fuel, Add(left, right, target), c);
            sum.Done? ==>
              && l.Done? && r.Done? && AsInteger(l.value).Ok? && AsInteger(r.value).Ok? && sum.value.Integer?
              && (AsInteger(l.value).value as nat + AsInteger(r.value).value as nat - sum.value.n as nat)
                 % 0x1_0000_0000_0000_0000 == 0
              && (!target.NullTarget? ==> ReadTarget(c', target) == sum)
  {
    hide StoreTo, ReadTarget, Find, AsInteger;
    var (c1, l) := EvalExpr(fuel, left, c);
    if l.Done? {
      var (c2, r) := EvalExpr(fuel, right, c1);
      if r.Done? && AsInteger(l.value).Ok? && AsInteger(r.value).Ok? {
        var sum := Integer(WrappingAdd(AsInteger(l.value).value, AsInteger(r.value).value));
        StoredIsRead(c2, target, sum, target);
        IntegerStoreKeeps(c2, target, sum.n);
      }
    }
  }

  /** An integer is never converted by a store. */
  lemma IntegerStoreKeeps(c: Context, target: Target, n: u64)
    ensures var r := StoreTo(c, target, Integer(n)).1; r.Done? ==> r.value == Integer(n)
  {
    hide Find;
  }

  /** A named object keeps its type when it is stored into, and every other object keeps its value. */
  lemma NamedObjectKeepsType(c: Context, name: GrammarName, value: AmlValue)
    requires HandlesLive(c.ns) && Find(c, name).Done?
    ensures var h := Find(c, name).value.1;
            var (c', r) := StoreTo(c, NameTarget(name), value);
            && h in c.ns.objects && c'.ns.objects.Keys == c.ns.objects.Keys
            && Find(c', name) == Find(c, name)
            && (forall k :: k in c.ns.objects && k != h ==> c'.ns.objects[k] == c.ns.objects[k])
            && TypeOf(c'.ns.objects[h]) == TypeOf(c.ns.objects[h])
            && (r.Done? ==> c'.ns.objects[h] == r.value && AsInteger(r.value) == AsInteger(value))
            && (r.Done? <==> TypeOf(value) == TypeOf(c.ns.objects[h]))
  {
    hide NodeAt, SearchUp, Resolve, IsSearchable;
    SearchIsLookup(c.ns, name, c.currentScope);
    SearchIgnoresObjects(c.ns, StoreTo(c, NameTarget(name), value).0.ns, name, c.currentScope);
  }

  lemma SearchIgnoresObjects(a: Space<AmlValue>, b: Space<AmlValue>, name: AmlName, scope: PathName)
    requires a.root == b.root && IsSearchable(name, scope)
    ensures Search(a, name, scope) == Search(b, name, scope)
  {
  }

  /** A definition is found at its resolved path, with the value given, under a handle that was free. */
  lemma DefinedIsFound(c: Context, name: GrammarName, value: AmlValue)
    requires AddResolved(c, name, value).1.Done?
    ensures var c' := AddResolved(c, name, value).0;
            var path := Resolve(name, c.currentScope);
            && path.Ok? && IsPath(path.value) && path.value != ROOT_NAME
            && GetHandle(c'.ns, path.value) == Ok(c.ns.nextHandle)
            && c'.ns.objects == c.ns.objects[c.ns.nextHandle := value]
            && Lookup(c.ns.root, SegsOf(path.value)).None?
  {
    hide NodeAt, ReplaceAt, Resolve;
    GrammarNameResolves(name, c.currentScope);
    AddedResolves(c, name, value);
    var path := Resolve(name, c.currentScope).value;
    PathIsNormal(path);
    var p := SegsOf(path);
    var c' := AddResolved(c, name, value).0;
    AddValueRefines(c.ns, p, value);
    assert c'.ns == AddValueAt(c.ns, p, value).0;
    HandleRefines(c'.ns, p);
    AbsLookup(c.ns.root, p);
  }
}
