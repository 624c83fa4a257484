# A model of the ACPI and AML libraries

The repository holds two Rust libraries. `aml` reads ACPI Machine Language: it builds a namespace of named
objects and runs control methods over it. `acpi` reads the static tables that describe the platform. This
project models the parts that carry state, loops and arithmetic, and proves what they promise for every
program, byte stream or run of operations.

| file | what it holds |
|---|---|
| `Types.dfy` | machine integers, names, errors and results |
| `Names.dfy`, `NameText.dfy`, `NameStrings.dfy` | names as values, as text, as byte code |
| `Levels.dfy`, `Namespaces.dfy`, `NamespaceObject.dfy`, `Traversal.dfy` | the level tree, the flat map it refines, the object updated in place, visiting every level |
| `Interpreter.dfy`, `ContextObject.dfy` | what a program does to the context, and the context updated in place that does the same |
| `History.dfy`, `Restoration.dfy`, `Acyclic.dfy`, `Reentry.dfy`, `Scoping.dfy` | what running keeps, and what an invocation or a block gives back |
| `Safety.dfy`, `Loops.dfy`, `Stores.dfy`, `Operators.dfy` | programs that never panic, what `While` means, what stores leave, what single operators, statements and calls yield |
| `Parsers.dfy`, `PkgLengths.dfy` | parser combinators and package lengths |
| `Bits.dfy`, `BufferFields.dfy` | bits of byte strings, and fields that view a shared buffer |
| `Resources.dfy`, `ResourceTemplates.dfy` | decoding, encoding and concatenating resource descriptors |
| `MadtEntries.dfy`, `Madt.dfy`, `Mcfg.dfy` | the interrupt-controller table and the PCIe configuration-space map |

`dafny verify dfyconfig.toml` checks everything.

## Main results

* **Method invocation restores its caller.** Suppose the methods a program has and defines can be ranked so that
  those up to the invoked one have no level and each calls only methods of lower rank, from every scope its code
  may run in, also after a break has left a block; that no block opens the level of a ranked method; and that
  whatever method is defined, or stored over another, has code planned for its path. Then an invocation and all
  the calls it leads to give back the caller's method context and scope, however it ends; no level is lost, and
  the only new ones are those of the program's blocks, so that without blocks the levels are exactly those there
  were (`Acyclic.AcyclicCallsRestore`). All of this is read off the code and the namespace before the call. (A
  program that defines methods or stores one over another must start from a namespace with exact handles, as a new
  one has, and is followed until all 2^32 handles are used up.) A method whose code makes no call restores its
  caller in any namespace (`Restoration.CallFreeMethodRestores`). For every program and context at
  all, each invocation restores its caller if no method it invokes has a level at its path at the time of the
  call (`Restoration.InvokeRestores`), and what one invocation does is decided by whether its level is still
  there when its body ends (`Restoration.RestoresIffLevelSurvives`). A cycle breaks this: calls share one level
  per method path, so a method that calls itself loses its context (`Reentry.ReentryLosesContext`).
* **Safe programs never panic.** Among the modelled statements and operators: if no store goes to the debug object
  and every name searched for or defined ends in a segment, then no run, with whatever it defines and calls,
  panics (`Safety.SafeProgramNeverPanics`).
* **`While` is its own unfolding**, stated without fuel (`Loops.WhileUnfolds`), and never lets a break or a
  continue out (`Loops.WhileCatches`). A block left by a break keeps its own scope, and exactly when that shows
  is `Scoping.BlockKeepsScopeIff`.
* **Calls and stores**: a method yields the value it returns, of any expression and for any caller
  (`Operators.ReturnedIsYielded`), arguments reach it in order (`Operators.CallPassesArguments`), and a store leaves
  its operand's value in its target and every other cell alone (`Operators.StoreLeavesValue`).
* **The level tree refines a flat map** over every sequence of operations (`Namespaces.RunRefines`), the
  upward search returns exactly the nearest enclosing holder (`Namespaces.SearchFindsNearest`), and handles
  are never issued twice exactly while at most 2^32 values are added (`Namespaces.HandlesAreFreshIff`): the
  counter is 32 bits wide.
* **Names**: normalisation is a homomorphism of concatenation, cancels each segment with a prefix right after it
  (`Names.PrefixPopsLast`), fails exactly on names that climb above their start, and chained resolution is
  associative; resolution gives a normal name exactly if the name was relative or normal already; text and byte
  code both round-trip, and the byte-code parser reads exactly the spellings of names
  (`NameStrings.SpelledIsParsed`, `NameStrings.ParsedIsSpelled`).
* **Buffer fields**: after any run of stores through fields that share a buffer, each bit of the buffer holds
  what the last covering store put there (`BufferFields.StoreThroughFields`).
* **Resource templates**: every supported descriptor round-trips, and concatenating two templates decodes to
  the concatenation of the two lists with a zero checksum.
* **The interrupt model**: the counting pass agrees with the filling pass, so every slot is written once, in
  table order. On every well-formed table the parse panics exactly when the entries before the first faulty one
  need more room than was counted, or there is no faulty entry and no processor; otherwise it fails with the
  first fault (`Madt.ApicModelPanicsIff`). Without faults, room is short exactly if there is an x2APIC NMI entry,
  an x2APIC processor beside a local APIC, or more than one x2APIC processor; `Madt.UncountedProcessorPanics` has
  an example.
* **PCIe windows**, where regions do not meet, are disjoint and lie inside their regions for devices below 32
  and functions below 8. A function that is found but outside those bounds shares its address with one inside
  them exactly if that address starts a window in some region's memory whose own function that region is the
  first to handle (`Mcfg.SharesAmongRegionsIff`); where no segment and bus belongs to two regions, exactly if it
  starts a window in some region's memory (`Mcfg.SharesAmongDistinctIff`). In a table of one region, that is
  exactly if the bus it spills to is the region's (`Mcfg.SharesAddressIff`).

## Conventions

* `Panic`, `Crash`, `Crashed` and `Panics` stand for the source's panics, `Timeout` for fuel running out and
  `Stuck` for a loop that makes no progress. Fuel appears in the interpreter only; `Loops` shows that more
  fuel never changes a finished run, and takes it away.
* Arithmetic is that of a build without overflow checks: the handle counter and sums wrap.
* The context's `clean` is a history variable: it stays true while no invoked method's path had a level at the
  time of the call. No step reads it; runs from contexts that differ in it alone agree in their outcome and in
  everything else (`History.InvokeIgnoresHistory`, `History.CodeIgnoresHistory`).
* Names in programs are those the byte code can spell; `NameStrings.NameStringIsGrammar` shows the parser
  yields no others.

Where the code and its documentation disagree the model follows the code: `resolve` is documented to
normalise its result but returns absolute names unchanged (aml/src/namespace.rs:510-517; exactly when that
shows is `Names.ResolveNormalizesIff`, and `NameText.AbsoluteTextIsNotNormalized` has the names), and the
comment in the extended interrupt descriptor says that a set polarity bit is active high where the code makes
it active low, as section 6.4.3.6 of the ACPI specification does (aml/src/resource.rs:532-565): the comment is
wrong for every descriptor (`Resources.CommentedPolarityIsReversed`).

## Model

| member | source | states |
|---|---|---|
| `Names.NormalizeIsFold` | aml/src/namespace.rs:463-494 | the shortcut for names without prefixes changes nothing: on every name normalisation is the fold, with the whole name in the error |
| `Names.NormalizeIsPrefixFree` | aml/src/namespace.rs:463-494 | a normalised name holds no prefix |
| `Names.NormalizeIsIdempotent` | aml/src/namespace.rs:463-494 | normalising a normalised name gives it back |
| `Names.NormalizeIsHomomorphism` | aml/src/namespace.rs:463-494 | if `a` normalises, then `normalize(a) + b` and `a + b` normalise together and to the same name |
| `Names.FailingPrefixFails` | aml/src/namespace.rs:463-494 | a name whose beginning cannot be normalised cannot be normalised |
| `Names.NormalizeFailsIff` | aml/src/namespace.rs:463-494 | normalisation fails if and only if some stretch that starts the name or follows a root has more prefixes than segments |
| `Names.NormalizeGivesPath` | aml/src/namespace.rs:463-494 | an absolute name with one root normalises to a root followed by segments |
| `Names.PrefixPopsLast` | aml/src/namespace.rs:463-494 | anywhere in a name, a segment and a prefix after it cancel: the segment a prefix removes is the one right before it |
| `Names.ParentInvertsChild` | aml/src/namespace.rs:496-522 | resolving a segment against a path appends it, and the parent of the result is that path |
| `Names.ResolveClimbs` | aml/src/namespace.rs:512-522 | against a path, k prefixes drop exactly its last k segments, and the segments after them are appended |
| `Names.ResolveIsAbsolute` | aml/src/namespace.rs:512-522 | whatever resolves against an absolute scope is absolute |
| `Names.ResolveNormalizesIff` | aml/src/namespace.rs:510-522 | a resolved name is normal if and only if the name was relative or normal already: the documented normalisation is missing for absolute names |
| `Names.GrammarNameResolves` | aml/src/namespace.rs:512-522 | a name of the byte code resolves against a path to a path |
| `Names.ResolveIsAssociative` | aml/src/namespace.rs:512-522 | resolving `b` against the resolution of `a`, and `a + b` against the scope, succeed together with the same name |
| `NameText.SegFromStr` | aml/src/name_object.rs:176-201 | accepts exactly one to four name characters with a lead character first, and pads with underscores |
| `NameText.PaddingIs` | aml/src/name_object.rs:176-201 | padding keeps the characters in place and fills up with underscores |
| `NameText.OneSegmentParses` | aml/src/namespace.rs:397-424 | text without dots, carets and backslashes is a name exactly if it is one to four capitals, underscores and digits, no digit first; otherwise it fails with the right error |
| `NameText.PartFromStr` | aml/src/namespace.rs:413-420 | accepts exactly carets followed by a segment, giving one prefix per caret |
| `NameText.PartsFromStr` | aml/src/namespace.rs:411-421 | succeeds exactly if every part does, and appends their names in order |
| `NameText.FromStr` | aml/src/namespace.rs:397-424 | the loops compute the declarative parse: an optional root, then the dot-separated parts, or the right error |
| `NameText.AsStringOfParse` | aml/src/namespace.rs:397-436 | printing a parsed name gives the text with each segment padded to four characters |
| `NameText.PadTextParses` | aml/src/namespace.rs:397-436 | the padded text parses to the same name as the text |
| `NameText.ParsedIsTextual` | aml/src/namespace.rs:397-424 | the parser yields only names with a root at most in front and no prefix at the end |
| `NameText.ParseOfAsString` | aml/src/namespace.rs:397-436 | for every such name, parsing what is printed gives the name back |
| `NameText.AbsoluteTextIsNotNormalized` | aml/src/namespace.rs:397-522 | the text of a root, a caret and any segment parses to a name that every scope resolves to itself, although it is not normal and cannot be normalised |
| `Levels.GetLevelForPath` | aml/src/namespace.rs:268-287 | every name whose walk does not panic, relative ones included: the walk ends at the level above the last segment, or fails naming the first level that is missing |
| `Levels.PathWalks` | aml/src/namespace.rs:268-287 | every path but the root can be walked, to the level above its last segment |
| `Levels.FirstComponentIsIgnored` | aml/src/namespace.rs:271-283 | the first component is never looked at, so a relative name is walked from the root without it |
| `Levels.LevelsArePrefixClosed` | aml/src/namespace.rs:268-312 | every ancestor of a level is a level |
| `Levels.NodeAfterReplace` | aml/src/namespace.rs:291-312 | editing the level at a path changes what is at and below the path, and nothing else |
| `Namespaces.AddLevelRefines` | aml/src/namespace.rs:90-112 | adds exactly that path to the flat level map with its type; an existing level is untouched; a missing parent is an error naming the first gap |
| `Namespaces.RemoveLevelRefines` | aml/src/namespace.rs:114-128 | drops exactly the level, its sub-levels and the values strictly below it, or fails and changes nothing |
| `Namespaces.AddValueRefines` | aml/src/namespace.rs:130-147 | puts the next handle at the path; on a collision the new handle replaces the old one and the call still fails |
| `Namespaces.HandleRefines` | aml/src/namespace.rs:168-171 | looking a handle up agrees with the flat map, errors included |
| `Namespaces.RunRefines` | aml/src/namespace.rs:90-171 | over every sequence of operations the tree stays the image of the flat map |
| `Namespaces.IssuedInOrder` | aml/src/namespace.rs:18-24 | the handle of the k-th add is the first one plus k, modulo 2^32, whether or not the add succeeds |
| `Namespaces.HandlesAreFreshIff` | aml/src/namespace.rs:18-24 | the handles issued over a run are distinct if and only if the run has at most 2^32 adds |
| `Namespaces.StepKeepsHandles` | aml/src/namespace.rs:90-147 | one step keeps every handle in the tree valid and forgets no object; below the wrap it keeps keys exact and positions distinct |
| `Namespaces.RunKeepsHandles` | aml/src/namespace.rs:90-166 | over every run, all handles ever issued stay valid, the keys are exactly the handles below the next one, and no two positions share a handle while the counter has not wrapped |
| `Namespaces.EmptySpaceIsExact` | aml/src/namespace.rs:74-82 | a new namespace satisfies those invariants |
| `Namespaces.EmptySpaceIsFlat` | aml/src/namespace.rs:74-82 | a new namespace has the root as its only level and no values |
| `Namespaces.RootStays` | aml/src/namespace.rs:90-128 | however the root is spelt, adding it does nothing and removing it fails |
| `Namespaces.SearchFindsNearest` | aml/src/namespace.rs:183-225 | the upward search returns the value under the longest prefix of the scope that holds it, skipping missing levels, and fails exactly when none does |
| `Namespaces.SearchIsLookup` | aml/src/namespace.rs:186-241 | whatever a search returns is a non-root path at which the tree holds that handle |
| `NamespaceObject.Namespace.constructor` | aml/src/namespace.rs:74-82 | starts empty, with exact handles |
| `NamespaceObject.Namespace.AddLevel` | aml/src/namespace.rs:90-112 | changes the object in place to the specified new namespace; a name with a root inside is refused with the error the source gives and changes nothing |
| `NamespaceObject.Namespace.RemoveLevel` | aml/src/namespace.rs:114-128 | changes the object in place to the specified new namespace; a name with a root inside is refused and changes nothing |
| `NamespaceObject.Namespace.AddValue` | aml/src/namespace.rs:130-147 | uses up a handle and fills the object map before the level is looked up, also for a name with a root inside, unless it cannot be normalised |
| `NamespaceObject.Namespace.GetHandle` | aml/src/namespace.rs:168-171 | reads the handle for every name that can be walked; on paths it is the one the specification gives |
| `NamespaceObject.Namespace.SearchByRules` | aml/src/namespace.rs:187-225 | the loop on the scope variable ends, for any absolute scope, normal or not, with or without a root inside, and returns what the climb of the normalised scope says |
| `NamespaceObject.Namespace.Search` | aml/src/namespace.rs:186-241 | from any absolute scope: single segments climb, other names are resolved once; on paths it is the search the interpreter uses |
| `NamespaceObject.SearchFromIsNearest` | aml/src/namespace.rs:187-225 | from a scope that normalises to a path, the result is the value under its longest prefix that holds it, and the failure is exact |
| `NamespaceObject.NameCases` | aml/src/namespace.rs:90-147 | an absolute name with one root normalises to a path and is walked as one; any other that can be walked fails at a missing level |
| `NamespaceObject.ResolveSegment` | aml/src/namespace.rs:512-522 | a segment resolves against any absolute scope to the child of the normalised scope |
| `NamespaceObject.ParentOfScope` | aml/src/namespace.rs:496-508 | the parent of a scope is one component shorter and can be searched as it could; only a scope that ends in a root has none |
| `Traversal.ChildName` | aml/src/namespace.rs:325-326 | the name handed to the visitor is the child's absolute path |
| `Traversal.TraverseLevelVisits` | aml/src/namespace.rs:321-334 | below one level: each visit once, only levels, parents first, none skipped whose parent answered yes |
| `Traversal.RootVisits` | aml/src/namespace.rs:317-341 | the same for the whole tree, starting at the root |
| `Traversal.TraverseVisitsExactly` | aml/src/namespace.rs:317-341 | a path is visited if and only if it is a level all of whose proper ancestors were visited before it and answered yes, and then once |
| `Traversal.TraverseAscends` | aml/src/namespace.rs:325-331 | levels with the same parent are visited in the order of their names |
| `Traversal.TraverseReplays` | aml/src/namespace.rs:317-341 | the visits are calls of the visitor in a row, each from the state the last one left; a failing traversal ends with the call that failed |
| `History.InvokeIgnoresHistory` | aml/src/lib.rs:166-234 | invocations from contexts that differ in the history variable alone agree in outcome, namespace, method context and scope |
| `History.CodeIgnoresHistory` | aml/src/term_object.rs:33-52 | so does code |
| `Restoration.ExprKeeps` | aml/src/expression.rs:602-712 | in a clean run an expression leaves the scope as it was and the method context present or absent as it was, and stops only by an error |
| `Restoration.InvokeKeeps` | aml/src/lib.rs:166-234 | the induction step over nested calls: an invocation keeps what an expression keeps and restores its caller |
| `Restoration.StmtKeeps` | aml/src/statement.rs:23-272 | no statement forgets an object, makes a handle dangle, loses a level in a clean run or turns an unclean run clean |
| `Restoration.ListKeeps` | aml/src/term_object.rs:33-52 | the same for statement lists |
| `Restoration.InvokeRestores` | aml/src/lib.rs:166-234 | from every context, if no method the call invokes has a level at call time: the caller's method context and scope are back, existing levels are still there and the method's own level is gone, whether the body fell through, returned, failed or leaked a break or continue, which become errors; no object is ever forgotten |
| `Restoration.RestoresIffLevelSurvives` | aml/src/lib.rs:166-234 | for any caller and body: the body starts with the call's values as arguments and no locals set; if the method's level is still there when it ends, a returned value is the result, falling off the end gives 0, a break or continue its own error, an error itself, and context and scope are the caller's; otherwise the call fails and everything stays as the body left it |
| `Restoration.CallFreeMethodRestores` | aml/src/lib.rs:166-234 | a method whose code makes no call gives back context and scope and drops its level, for every caller and namespace |
| `Acyclic.InvokeIsCalm` | aml/src/lib.rs:166-234 | the induction step: where no method that ranks below `r` has a level, a planned method of such a rank gives back context and scope, and leaves the levels as they were but for the plan's blocks |
| `Acyclic.AcyclicCallsRestore` | aml/src/lib.rs:166-234 | if calls go down some rank from every scope code may run in, no method up to the invoked one has a level or has it opened by a block, and methods are defined or stored over only with planned code, the invocation gives back context and scope, loses no level and adds only those of the blocks |
| `Acyclic.NoBlocksSameLevels` | aml/src/lib.rs:179-216 | where a program opens no block, the levels are exactly those there were |
| `Acyclic.CallingCallerRestores` | aml/src/lib.rs:166-234 | an instance: a method that breaks out of a scope block in a loop and then returns the result of another method restores any caller, and adds at most the block's level |
| `Reentry.ReentryLosesContext` | aml/src/lib.rs:182-216 | a method that calls itself once ends in an error with its own scope and method context left behind |
| `Loops.ExprMeaningIs` | aml/src/expression.rs:602-712 | any fuel that suffices gives the meaning of an expression |
| `Loops.StmtMeaningIs` | aml/src/statement.rs:23-272 | any fuel that suffices gives the meaning of a statement |
| `Loops.ListMeaningIs` | aml/src/term_object.rs:33-52 | any fuel that suffices gives the meaning of a list |
| `Loops.WhileUnfolds` | aml/src/statement.rs:204-272 | a loop means: test once in the current context; if true run the body and, after a normal end or a continue, loop again from the context the body left; a break ends normally; returns and errors pass; both sides are undefined together |
| `Loops.WhileCatches` | aml/src/statement.rs:204-272 | no break or continue ever leaves a loop |
| `Loops.CountingLoopCounts` | aml/src/statement.rs:204-272 | a loop that adds one to a local while it is less than a bound ends, for every start and bound, with the larger of the two in the local and nothing else changed |
| `Scoping.TidyKeepsScope` | aml/src/term_object.rs:140-178 | from any context: no break leaves the statement unless one may, and if no block lets a break or continue out and no call meets a level, ending normally, or by a break or continue, leaves the scope it started in |
| `Scoping.TidyListKeepsScope` | aml/src/term_object.rs:140-178 | the same for lists |
| `Scoping.BlockKeepsScopeIff` | aml/src/term_object.rs:140-178 | a block around such code, in a run where no call meets a level, leaves the caller's scope if and only if it ran to its end or its scope is the caller's |
| `Scoping.UntidyLoopKeepsBlockScope` | aml/src/term_object.rs:168-175 | the condition is needed: a loop that catches a break from inside a scope block ends normally in that block's scope |
| `Stores.StoredIsRead` | aml/src/lib.rs:294-387 | a target reads back what its store returned, every other argument, local and object reads as before, and a failed store changes nothing |
| `Stores.AddLeavesSum` | aml/src/expression.rs:63-87 | an addition of any operands yields, and leaves in any target, the sum of their values modulo 2^64 |
| `Stores.NamedObjectKeepsType` | aml/src/lib.rs:330-349 | among the modelled values, a store to a name succeeds exactly for those of the object's type, reads back what it returned, never changes the object's type, and touches no other object |
| `Stores.DefinedIsFound` | aml/src/namespace.rs:149-158 | a definition that succeeds is found at its resolved path under the next handle, with its value, where nothing was before |
| `Operators.ReturnedIsYielded` | aml/src/lib.rs:166-234 | a method that returns an expression yields the expression's value in the entered context, for every caller and all arguments, if its level survives |
| `Operators.CallPassesArguments` | aml/src/expression.rs:665-712 | from the call to the result: a method that returns its argument i yields the i-th value it is called with |
| `Operators.EnteredReads` | aml/src/lib.rs:93-110 | a method sees the values it was called with as its arguments, no others, and no locals that are set |
| `Operators.ObjectIsItsValue` | aml/src/expression.rs:665-712 | naming an object that is no method yields the object and does nothing |
| `Operators.StoreLeavesValue` | aml/src/expression.rs:602-620 | a store yields its operand's value and leaves it in its target; every other cell reads as after the operand; an operand that fails is all that happens |
| `Operators.ComparisonCompares` | aml/src/expression.rs:386-403 | true exactly if the left value is below the right one, with operands evaluated left to right |
| `Operators.AdditionStopsEarly` | aml/src/expression.rs:63-87 | an addition whose operand fails, left one first, does nothing more |
| `Operators.ValuesConvert` | aml/src/value.rs:266-405 | zero is false and every other number true; true is all ones; other values convert to neither |
| `Operators.FindIsNearest` | aml/src/namespace.rs:186-241 | a name of one segment stands for the value under the longest prefix of the current scope that holds it |
| `Operators.FindResolves` | aml/src/namespace.rs:186-241 | any other name stands for what is at the path it resolves to |
| `Operators.ArgumentsSplit` | aml/src/parser.rs:192-213 | evaluating m + n arguments is evaluating the first m and then, where they left off, the next n |
| `Operators.OneArgument` | aml/src/parser.rs:192-213 | one argument is its expression's value; a missing one ends the stream |
| `Operators.ListsRunInOrder` | aml/src/term_object.rs:33-52 | a list after another runs where the first left off, if that ended normally |
| `Operators.SimpleStatements` | aml/src/statement.rs:47-202 | break, continue and no-op do just that; a return carries its value, and a bare expression drops it |
| `Operators.ConditionalChooses` | aml/src/statement.rs:118-167 | the predicate is evaluated once; true or a number other than zero takes the first branch, false or zero the other |
| `Operators.DefinitionDefines` | aml/src/term_object.rs:118-138 | a definition puts a new handle at its name's path, under which the number or the method is recorded |
| `Operators.ScopeRunsInside` | aml/src/term_object.rs:140-178 | the body runs with the level made and as current scope; a normal end returns to the old scope |
| `Operators.DeviceIsMade` | aml/src/term_object.rs:623-659 | a device block defines the device at its path and makes a level of its type there |
| `Safety.FindPanicsIff` | aml/src/namespace.rs:186-241 | a search for a name of the byte code panics if and only if the name resolves to the root; with live handles whatever it finds has an object |
| `Safety.StorePanicsIff` | aml/src/lib.rs:330-387 | with live handles a store panics if and only if it goes to the debug object or to the root |
| `Safety.DefinitionPanicsIff` | aml/src/namespace.rs:130-158 | a definition panics if and only if its name resolves to the root |
| `Safety.InvokeIsSafe` | aml/src/lib.rs:166-234 | in a context whose methods are all safe an invocation does not panic and leaves such a context |
| `Safety.CodeIsSafe` | aml/src/term_object.rs:33-52 | so does safe code |
| `Safety.SafeProgramNeverPanics` | aml/src/lib.rs:146-234 | a safe program run from the start never panics |
| `ContextObject.AmlContext.constructor` | aml/src/lib.rs:131-144 | starts at the root scope, outside any method |
| `ContextObject.AmlContext.FindName` | aml/src/namespace.rs:186-241 | the search a name in a program stands for, from the current scope |
| `ContextObject.AmlContext.StoreValue` | aml/src/lib.rs:330-387 | changes only locals, arguments or object values, and only the one the target names |
| `ContextObject.AmlContext.AddAtResolvedPath` | aml/src/namespace.rs:149-158 | changes only the namespace, as the specification says |
| `ContextObject.AmlContext.CurrentArg` | aml/src/lib.rs:308-310 | reads the argument of the specification or fails as it does |
| `ContextObject.AmlContext.Local` | aml/src/lib.rs:313-324 | reads the local of the specification or fails as it does |
| `ContextObject.AmlContext.Read` | aml/src/lib.rs:294-305 | reads the target of the specification or fails as it does |
| `ContextObject.AmlContext.Evaluate` | aml/src/expression.rs:602-712 | the context updated in place ends as the evaluation of the expression says |
| `ContextObject.AmlContext.EvaluateArgs` | aml/src/expression.rs:699-704 | arguments are evaluated left to right, as many as the method declares |
| `ContextObject.AmlContext.InvokeMethod` | aml/src/lib.rs:166-234 | the swap and restore of method context and scope do what the specification says, so both are back if no call meets a level |
| `ContextObject.AmlContext.Execute` | aml/src/term_object.rs:33-52 | the statement loop ends in the specified context |
| `ContextObject.AmlContext.ExecuteOne` | aml/src/statement.rs:23-202 | each statement ends in the specified context |
| `ContextObject.AmlContext.ExecuteWhile` | aml/src/statement.rs:204-272 | the loop that rethreads the context, with the first predicate evaluated before it and later ones at its end, equals the recursive meaning |
| `Parsers.RunNOf` | aml/src/parser.rs:192-213 | the counting loop collects what the recursive `n_of` does; a failure gives back the input of the repetition that failed |
| `Parsers.RunTakeWhile` | aml/src/parser.rs:215-236 | whenever the parser stops applying, consuming or not, the loop returns its count or failure; where every application consumes that is the recursive `take_while` |
| `Parsers.RunTermList` | aml/src/term_object.rs:33-52 | whenever the list ends or an object fails, the loop returns there; where every object consumes that is the recursive list |
| `Parsers.TakeNIsTakes` | aml/src/parser.rs:112-173 | taking n bytes is taking a byte n times, except for where a failure is reported |
| `Parsers.TestsOfAByte` | aml/src/parser.rs:112-248 | a byte that passes is taken; one that does not is named by `consume`, and makes `opcode` the wrong parser |
| `Parsers.ChoiceIsOrChain` | aml/src/parser.rs:453-486 | a choice equals the chain of `or`s it replaces, contexts and failures included |
| `Parsers.SequencingIsFeeding` | aml/src/parser.rs:335-423 | `then` is `feed` with both results kept, in order; `map` is `map_with_context` that keeps the context |
| `Parsers.FeedingIsAssociative` | aml/src/parser.rs:437-451 | feeding is associative, and the empty parser is its unit |
| `Parsers.RepetitionSplits` | aml/src/parser.rs:192-213 | `m + n` repetitions are `m` and then `n`, wherever either fails |
| `Parsers.PrimitivesSuffixing` | aml/src/parser.rs:105-248 | the primitive parsers leave suffixes, on success and on failure |
| `Parsers.OrSuffixing` | aml/src/parser.rs:309-322 | alternatives of suffix-returning parsers return suffixes |
| `Parsers.ChoiceSuffixing` | aml/src/parser.rs:453-486 | so does a choice of any number of them |
| `Parsers.MapSuffixing` | aml/src/parser.rs:335-350 | so does mapping |
| `Parsers.MapWithContextSuffixing` | aml/src/parser.rs:363-378 | so does mapping with the context |
| `Parsers.ThenSuffixing` | aml/src/parser.rs:410-423 | so does sequencing |
| `Parsers.FeedSuffixing` | aml/src/parser.rs:437-451 | so does feeding a result to a parser made from it |
| `Parsers.ExtractSplits` | aml/src/parser.rs:283-296 | the extracted bytes followed by the remainder are the input |
| `Parsers.NOfSuffixing` | aml/src/parser.rs:192-213 | repetition returns suffixes |
| `Parsers.TakeWhileSuffixing` | aml/src/parser.rs:215-236 | so does repetition while the parser applies, and it ends if the parser consumes |
| `Parsers.TermListStops` | aml/src/term_object.rs:33-52 | a successful list leaves a suffix no longer than its end offset, and the list ends if every object consumes |
| `PkgLengths.NoOverflow` | aml/src/pkg_length.rs:52-97 | a decoded length is below 2^28, so the 32-bit sum never wraps |
| `PkgLengths.PkgLengthRoundTrip` | aml/src/pkg_length.rs:52-97 | decoding the canonical encoding of any length below 2^28, before any trailer, gives the length and the trailer |
| `PkgLengths.LengthIsItsDigits` | aml/src/pkg_length.rs:18-97 | every encoding, canonical or not, gives the number its digits spell and ends there; a stream shorter than that number is refused |
| `PkgLengths.PackageEndsWhereItSays` | aml/src/parser.rs:175-190 | wherever in a package one stands, taking to its end leaves the stream with exactly the raw length dropped, and fails exactly past the end |
| `PkgLengths.PackageRoundTrip` | aml/src/pkg_length.rs:18-50 | length, payload and trailer come apart as they were put together |
| `NameStrings.SegRoundTrip` | aml/src/name_object.rs:221-236 | a segment before any trailer parses to itself and the trailer |
| `NameStrings.PathRoundTrip` | aml/src/name_object.rs:115-170 | null, single, dual and multi paths of up to 255 segments round-trip |
| `NameStrings.NameStringRoundTrip` | aml/src/name_object.rs:71-113 | every encodable name, rooted or prefixed, before any trailer parses to that name and exactly the trailer |
| `NameStrings.SpelledIsParsed` | aml/src/name_object.rs:71-170 | every spelling of a name, canonical or not, whatever follows, is read as that name |
| `NameStrings.ParsedIsSpelled` | aml/src/name_object.rs:71-170 | and nothing else is: whatever is read starts with a spelling of the name, which is all that is gone |
| `NameStrings.NameRefused` | aml/src/name_object.rs:71-170 | an empty stream, the null name alone and a stray first byte each give their own error at the start of the stream |
| `NameStrings.PartsOfName` | aml/src/name_object.rs:71-113 | every name of the grammar is one of those encodable, if its segments number at most 255 |
| `NameStrings.NameStringIsGrammar` | aml/src/name_object.rs:71-113 | whatever the bytes, a parsed name is of the grammar |
| `NameStrings.NameStringSuffixing` | aml/src/name_object.rs:71-113 | the name parser returns suffixes |
| `Bits.BitAfterWrite` | aml/src/value.rs:543-577 | a write of bits sets exactly its range, from the source or to zero beyond the source |
| `BufferFields.LastStoreWins` | aml/src/value.rs:533-582 | over any run of in-bounds stores, a bit holds what the last store covering it put there, zero-extended or truncated |
| `BufferFields.UncoveredIsUnchanged` | aml/src/value.rs:533-582 | a bit no store covers keeps its value |
| `BufferFields.ReadIsLittleEndian` | aml/src/value.rs:515-527 | the value of a field has the field's bits as its binary digits, least significant first |
| `BufferFields.ReadOfBytes` | aml/src/value.rs:515-527 | a byte-aligned field reads as the little-endian value of its bytes |
| `BufferFields.ReadAfterIntegerStore` | aml/src/value.rs:505-558 | reading a field after an integer store gives the integer modulo the field's width, at any bit offset |
| `BufferFields.CreatedFieldReadsBytes` | aml/src/term_object.rs:215-353 | byte, word, dword and qword fields select exactly their bytes |
| `BufferFields.BitFieldIsOneBit` | aml/src/term_object.rs:180-213 | a bit field covers the bit at its index and no other, and reads as that bit |
| `BufferFields.AnyFieldIsItsBits` | aml/src/term_object.rs:355-390 | a field of any number of bits covers exactly those from its index on, and reads as them |
| `BufferFields.PutBitAt` | aml/src/value.rs:559-562 | sets one bit of the shared buffer in place |
| `BufferFields.CopyAndFill` | aml/src/value.rs:551-556 | the copy and the zero fill together are one write of the whole field |
| `BufferFields.WriteBufferField` | aml/src/value.rs:533-582 | writes through to the shared buffer: integers and buffers fill the field, a boolean sets its first bit only, other types are refused unchanged |
| `BufferFields.StoreThroughFields` | aml/src/value.rs:533-582 | any run of stores through fields over one array leaves it as the run of stores on its bytes says, so each bit holds what the last store covering it put there |
| `BufferFields.ReadBufferField` | aml/src/value.rs:505-527 | fails exactly out of bounds; up to 64 bits are the little-endian value of the field's bits, more are the field's bytes with the bits past its end cleared |
| `BufferFields.BufferAsInteger` | aml/src/value.rs:278-292 | the fold over the first eight bytes is their little-endian value and fits 64 bits |
| `Resources.FirstItem` | aml/src/resource.rs:47-150 | a decoded descriptor leaves a strictly shorter suffix |
| `Resources.CommentedPolarityIsReversed` | aml/src/resource.rs:532-565 | no extended interrupt is decoded with the polarity the comment gives it |
| `Resources.ResourceDescriptorList` | aml/src/resource.rs:22-43 | the loop returns the recursive decoding of the whole template, or its error |
| `ResourceTemplates.ResourceRoundTrip` | aml/src/resource.rs:195-565 | in each of nine encodings, a resource that fits it, before any bytes, decodes to itself and exactly those bytes |
| `ResourceTemplates.LongerDescriptors` | aml/src/resource.rs:195-565 | bytes after an address space or an interrupt are not read; a longer descriptor of any other kind is an error |
| `ResourceTemplates.ShorterDescriptors` | aml/src/resource.rs:195-565 | a descriptor cut short is an error, except that three bytes of an interrupt with flags are one without |
| `ResourceTemplates.ReservedTypes` | aml/src/resource.rs:47-150 | reserved types are an error, whatever follows, and the end tag is known by its type alone |
| `ResourceTemplates.FirstItemIsLocal` | aml/src/resource.rs:47-150 | bytes after a decoded descriptor do not change it |
| `ResourceTemplates.EncodedIsTemplate` | aml/src/resource.rs:47-150 | any list of encoded resources with an end tag is a template of those resources |
| `ResourceTemplates.TemplateDecodes` | aml/src/resource.rs:22-43 | a template decodes to exactly its resources |
| `ResourceTemplates.ConcatRes` | aml/src/expression.rs:209-257 | refuses a one-byte side, otherwise strips both end tags and appends a new one with its checksum |
| `ResourceTemplates.Checksum` | aml/src/expression.rs:248-250 | the wrapping fold is the sum modulo 256 |
| `ResourceTemplates.ConcatenationConcatenates` | aml/src/expression.rs:209-257 | for any two templates, empty ones included, the result is a template that decodes to the left list followed by the right, and its bytes sum to zero modulo 256 |
| `MadtEntries.EntryRoundTrip` | acpi/src/madt.rs:347-413 | every entry of a supported type reads back from its bytes, which span its structure |
| `MadtEntries.TableRoundTrip` | acpi/src/madt.rs:347-413 | a table of such entries is well formed and holds them in order |
| `MadtEntries.OtherTypes` | acpi/src/madt.rs:347-413 | types no structure is defined for are skipped; those of SAPICs, GICs and wakeup structures are kept |
| `MadtEntries.MadtEntryIter.constructor` | acpi/src/madt.rs:302-308 | starts with all entries to come |
| `MadtEntries.MadtEntryIter.Next` | acpi/src/madt.rs:347-413 | returns the entries one by one in table order, skipping unknown types, and always gets closer to the end |
| `Madt.IntiFlagsSpell` | acpi/src/madt.rs:623-639 | flags decode to a polarity and trigger mode if and only if their low four bits are the code of that pair |
| `Madt.CountsMatch` | acpi/src/madt.rs:120-139 | on good entries each counter is the number of entries of its kind, short by the x2APIC ones |
| `Madt.FillIsContents` | acpi/src/madt.rs:141-286 | filling gives, slice by slice, the entries of that kind in table order, and panics exactly if some slice is too small |
| `Madt.FillCrashesIff` | acpi/src/madt.rs:120-286 | with the sizes the counting pass found, filling succeeds and is exact if and only if no x2APIC entry needs room that was not counted |
| `Madt.GoingMeansGood` | acpi/src/madt.rs:158-286 | a fill that succeeds met no faulty entry |
| `Madt.FirstFaultStops` | acpi/src/madt.rs:158-286 | the first faulty entry decides the error |
| `Madt.FillOutcome` | acpi/src/madt.rs:158-286 | on any entries and sizes, a fill panics if the entries before the first fault do not fit, else fails at that fault, else holds them all |
| `Madt.CountEntries` | acpi/src/madt.rs:120-139 | the counting loop computes the counts of the whole table |
| `Madt.Slice.Put` | acpi/src/madt.rs:141-189 | writes the next free slot, and only if there is one |
| `Madt.Filler.Accept` | acpi/src/madt.rs:158-286 | one entry changes the slices and counters in place as specified |
| `Madt.Filler.AcceptProcessor` | acpi/src/madt.rs:160-210 | the first processor becomes the boot processor, later ones take slots |
| `Madt.Filler.Finish` | acpi/src/madt.rs:289-300 | hands out slices that are full, and panics without a boot processor |
| `Madt.FillFromTable` | acpi/src/madt.rs:158-286 | the filling loop over the iterator equals the fill of the whole entry list |
| `Madt.ParseApicModel` | acpi/src/madt.rs:98-300 | both passes together compute the specified model, error or panic |
| `Madt.ApicModelIsExact` | acpi/src/madt.rs:98-300 | with a LocalApic and no x2APIC entry: the last address override wins, each list holds its entries in table order, the first LocalApic is the boot processor and all others are application processors |
| `Madt.ModelDescribesProcessors` | acpi/src/madt.rs:98-300 | whenever the parse succeeds, the boot processor is the first processor entry and the others are those after it, field by field: ids, state by the enabled flag, and whether it is an application processor; legacy controllers are reported exactly if the table's flag says so |
| `Madt.ListedByField` | acpi/src/madt.rs:158-286 | each entry is in its list after those of its kind before it, with its own ids, addresses, lines and flags |
| `Madt.LastOverrideWins` | acpi/src/madt.rs:158-286 | the local APIC address is that of the last override, or else the table's |
| `Madt.FaultsByField` | acpi/src/madt.rs:158-286 | which entries are accepted, and which error each of the others gives |
| `Madt.ApicModelPanicsIff` | acpi/src/madt.rs:98-300 | on every well-formed table the parse panics if and only if the entries before the first fault need more room than was counted, or there is no fault and no processor; it fails if and only if they fit and there is a fault, with that fault |
| `Madt.UncountedProcessorPanics` | acpi/src/madt.rs:130-210 | every table of a local APIC and an x2APIC processor makes the parse panic |
| `Madt.ParseInterruptModel` | acpi/src/madt.rs:51-96 | the first entry that decides the model decides it; with none it is unknown |
| `Madt.FirstDecides` | acpi/src/madt.rs:51-96 | the first entry that is no wakeup structure decides: an unsupported one panics, any other parses the table |
| `Madt.WakeupDefeatsTheParse` | acpi/src/madt.rs:51-300 | with a multiprocessor-wakeup entry no APIC model is ever returned; the whole parse succeeds only if all entries are of that kind |
| `Madt.WakeupTableFails` | acpi/src/madt.rs:51-283 | every table of a wakeup structure and a local APIC is rejected as unexpected |
| `Mcfg.Find` | acpi/src/mcfg.rs:41-44 | the first region that handles the segment and bus, or none if no region does |
| `Mcfg.OffsetIsSum` | acpi/src/mcfg.rs:46-51 | for devices below 32 and functions below 8 the shifted parts do not overlap, so the or is a sum |
| `Mcfg.WindowInRegion` | acpi/src/mcfg.rs:37-52 | a function's 4096-byte window lies inside its region |
| `Mcfg.WindowsAreDisjoint` | acpi/src/mcfg.rs:37-52 | distinct functions have disjoint windows, so the address map is injective |
| `Mcfg.OffsetSpills` | acpi/src/mcfg.rs:46-51 | for any device and function number, high bits of the device go to the bus and high bits of the function to the device |
| `Mcfg.SharesAddressIff` | acpi/src/mcfg.rs:37-52 | in a table of one region a function shares its address with another one in range if and only if it is out of range and the bus it spills to is the region's |
| `Mcfg.FullRegionSharesIff` | acpi/src/mcfg.rs:37-52 | in a table of one region over all buses, if and only if its device is 32 or more or its function 8 or more |
| `Mcfg.SharesAmongRegionsIff` | acpi/src/mcfg.rs:37-52 | among disjoint regions a handled function shares its address with another one in range if and only if it is out of range and its address starts a window, in whatever region, whose own function that region is the first to handle |
| `Mcfg.SharesAmongDistinctIff` | acpi/src/mcfg.rs:37-52 | where no segment and bus belongs to two regions, if and only if it is out of range and its address starts a window in some region |
| `Mcfg.SpillsIntoTheNextRegion` | acpi/src/mcfg.rs:37-52 | an example: device 32 of a one-bus region has the address of a function of another segment |

## Left out

- Levels.NodeAfterReplace: levels are values rebuilt along the path, not nodes updated through references.
- NamespaceObject.Namespace.AddLevel: relative names, and names whose walk reaches a component that is not a segment; on both the source panics.
- NamespaceObject.Namespace.RemoveLevel: the same.
- NamespaceObject.Namespace.AddValue: the same, and the root.
- NamespaceObject.Namespace.GetHandle: names of fewer than two components, and names whose walk reaches a component that is not a segment; on both the source panics.
- NamespaceObject.Namespace.Search: names and scopes that lead to such a walk.
- Acyclic.AcyclicCallsRestore: runs in which more than 2^32 values are added, if the program changes what methods there are: a new method may then share its handle with an older name.
- Stores.NamedObjectKeepsType: the source also converts a buffer stored into an integer object; buffers are not among the values.
- ContextObject.AmlContext.constructor: the predefined objects (`_OSI`, `_GL`, `_OS` and others) are not added.
- ContextObject.AmlContext.Evaluate: values are booleans, integers, devices and methods, and operators are store, add, less-than and calls; strings, packages, buffers, fields and the other operators are not in the interpreter, because they touch neither scopes nor contexts. Stores to the debug object panic, as in the source.
- ContextObject.AmlContext.StoreValue: stores to fields and buffer fields, which are not among the values; `BufferFields` has the latter on their own.
- ContextObject.AmlContext.InvokeMethod: native methods, which are closures supplied by the host.
- ContextObject.AmlContext.EvaluateArgs: programs are syntax trees, not byte streams; a call that lists too few arguments fails as a stream that ends too early would, and extra ones are not evaluated.
- ContextObject.AmlContext.ExecuteOne: `Fatal`, `BreakPoint`, processors, power resources, thermal zones, mutexes, external declarations and operation regions are not among the statements.
- Traversal.TraverseLevelVisits: the visitor is a function of its own state, and the fold is on values.
- Parsers.RunTakeWhile: a parser that never stops applying, on which the source does not return.
- Parsers.RunTermList: the same.
- Parsers: how the grammar rules are assembled from the combinators, apart from names and package lengths.
- PkgLengths.PkgLengthRoundTrip: streams shorter than 2^32 bytes; the source truncates the length of longer ones to 32 bits.
- PkgLengths.PackageEndsWhereItSays: the same.
- PkgLengths.LengthIsItsDigits: the same.
- Parsers.TakeNIsTakes: the same.
- Parsers.TermListStops: the same.
- BufferFields.ReadBufferField: fields of more than 64 bits that do not start at a byte, whose result another library decides. Offset plus length is computed without 64-bit wrap.
- BufferFields.WriteBufferField: writes out of bounds, on which the source panics, and a source buffer that is the target, on which its lock is taken twice.
- Resources.ResourceDescriptorList: descriptors the source does not implement panic and have no result.
- ResourceTemplates.ConcatRes: works on the contents of the two buffers; the store of the result to its target is not part of it.
- MadtEntries.MadtEntryIter.constructor: needs entries at least as long as their structures that sum to the table; otherwise the source reads past it or never ends.
- Madt.CountEntries: the same.
- Madt.FillFromTable: the same.
- Madt.ParseApicModel: the same.
- Madt.ParseInterruptModel: the same; SAPIC and GIC entries panic, as in the source.
- Madt: allocation of the slices, which may fail.
- Mcfg: the number of entries in the table and the iterator over them.
- Host memory and I/O access, operation regions and their fields, `initialize_objects`, `search_for_level`, PCI routing tables, `FADT`, `HPET`, `BGRT` and other tables, table discovery and mapping, logging and debug printing, and the command-line tools.
