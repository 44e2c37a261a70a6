# The core of the Nix evaluator, modelled and proved in Dafny

This project models the parts of the Nix expression evaluator whose correctness does not follow
from reading one function, and proves what they promise. Verify everything with
`dafny verify dfyconfig.toml`.

## The five parts

**Scope compilation** (`Syntax`, `Parser`, `Merging`, `Nodes`, `Paths`, `Crossed`, `Binder`,
`Annotation`, `AstPass`, `Runtime`, `HeapTyping`, `Simulation`, `Meaning`, `MeaningFrames`,
`Adequacy`, `Scope`). The parser builds attribute sets definition by definition and merges a
second set into an earlier one of the same name. `bindVars` then resolves every variable once,
to a level and displacement or to a chain of `with` frames, and evaluation never looks at a
lexical name again. `AstPass` is the pass as it runs: methods that write fields on the nodes,
proved to leave exactly the notes of the function `Bind`. `Runtime` is one lazy evaluator
(thunks, black holes, sharing, failures that are remembered, `rec`, `let`, the three kinds of
`inherit`, `__overrides`, dynamic attributes, lambdas with formals and `@`, functors, `with`,
selection) with two ways of finding things: by name in named frames, and by index in frames
whose names have been erased. What expressions mean is said apart from both, by rules of
inference (`Meaning`): a derivation is a tree of claims, a checker says whether every claim
follows by its rule, and frames are described by what they hold. `Adequacy` proves that
evaluation by name comes to a value or error of the program exactly when that has a derivation.
The main result of compilation starts from the text: the pass rejects exactly the programs that
are not scoped, and on all others the two ways agree, in value, error and heap, for every
amount of fuel, unless a merge has given an `inherit (from)` definition the displacement of
something else than its source. That happens: the parser moves the node that the names of one
`inherit (from)` share once for every name. It happens exactly when there are several names and
the earlier set already has sources, and `Crossed` runs two such programs, one that reads
outside its frame and one that answers from another source. Together: on a text without such a
merge, the evaluator that follows the indices comes to exactly what the rules derive.

**The evaluation cache** (`EvalCache`). The database table, cursors that keep rows which may be
stale, and sessions that share one database, as classes with the value as a ghost: what is
found at each path, so that cyclic sets are included. Each row reachable from the root is true
of the value at its path after every write, and every answer in every run is the one direct
evaluation gives, except for the rendering of paths and in three situations. These are
behaviours of the code, each with the exact condition under which it happens and with a run
that shows it: a root whose failure is on record answers "no such attribute"; an attribute
whose failure is on record is reported as an error when it is looked up below a placeholder,
where direct lookup would succeed; an integer beyond a C `int` comes back truncated once it has
been stored, because `setInt` takes an `int`.

**Application** (`Application`). `callFunction` as an n-ary loop over lambdas, primitive
operations, partial-application chains and functors, equal to one-argument-at-a-time
application in any world of function bodies, primitive operations, forcing and allocation.

**Equality, order and closure** (`Equality`, `Ordering`, `Closure`). The two duplicated
equality functions agree, errors included: what they force may throw; equality is identity of
trees without addresses, and an equivalence on data although derivations are compared by
`outPath` alone; `CompareValues` is a strict order consistent with it, numbers as reals,
strings byte by byte and lists by their first difference, unless a comparison comes down to
equal paths of different accessors, and exactly then it is not; `genericClosure` is proved for
any search tree a map might keep, by letting every probe of the search be arbitrary, and ends
whenever the reachable keys are finitely many up to equality, with a result that is determined
element by element.

**Attribute sets and the loops that build values** (`Bindings`, `AttrsBuilder`, `ListToAttrs`,
`ReplaceStrings`, `JsonSax`, `JsonPrinter`, `JsonMeaning`, `Repl`). Layered attribute sets with
their merging iterator and `//`; the builder of attribute set expressions; `listToAttrs` inside
the array of its result; `replaceStrings` with its cache; the JSON parser's stack machine and
the printer, with the round trip and what is printed of any value; the scope of the interactive
evaluator over whole sessions.

## Conventions

`Common`, `Outcomes` and `StaticVars` hold what the modules share. A symbol is a natural
number, ordered as symbol ids are; strings that are compared or printed are lists of bytes.
What a piece of code obtains from the rest of the evaluator (the forced value of an operand,
the result of an operator, an exception) is part of its input, as an outcome that is either a
value or an error, so that error paths are modelled and the order of errors is stated.
Assertions of the source are preconditions or `assert` statements and are proved never to fire.

## Model

| member | source | states |
|---|---|---|
| `Scope.CompilationPreservesMeaning` | `src/libexpr/nixexpr.cc:286-598` | For every text the parser accepts and every amount of fuel: `bindVars` rejects it exactly when some variable has no binder and no enclosing `with`; every `inherit (from)` definition holds the index of its own source exactly when no such definition of several names was merged into a set that already had sources; and if both go well, evaluation that follows levels, displacements and `with` chains gives the same value or error, and the same heap up to frame names, as evaluation that looks every variable up by name and every such definition up in its own source, and never leaves a frame, reads an empty slot or follows an unwritten field |
| `Scope.NotesPreserveMeaning` | `src/libexpr/nixexpr.cc:286-598` | The same agreement for any AST, parsed or not, whose `inherit (from)` definitions hold the index of their own source |
| `Adequacy.EvalIsDerivable` | `src/libexpr/eval.cc:1244-1864` | The by-name evaluator computes the language: for every expression, heap and frame, a value or error of the program, with the heap it leaves, is what evaluation comes to with some fuel if and only if it has a derivation by the rules of `Meaning`, one rule per construct (`if`, `let`, `rec` with `__overrides`, the three kinds of `inherit`, dynamic attributes, formals with defaults and `@`, functors, selection with a default, `with`, sharing and black holes), which mention neither the evaluator nor fuel |
| `Scope.CompilationImplementsLanguage` | `src/libexpr/nixexpr.cc:286-598` | For every text that passes the parser and `bindVars` and has no crossed sources: evaluation that follows levels, displacements and `with` chains comes to a value or error if and only if the rules, which know only names, derive it |
| `Adequacy.OneOutcome` | `src/libexpr/eval.cc:1244-1864` | The rules are deterministic: nothing has two derivations with different values, errors or heaps |
| `Adequacy.FuelDoesNotMatter` | `src/libexpr/eval.cc:1244-1864` | Two amounts of fuel with which evaluation comes to a value or an error of the program give the same one and the same heap |
| `Adequacy.Backward` | `src/libexpr/eval.cc:1244-1864` | Every answer of the evaluator, construct by construct, follows by a rule from answers with less fuel |
| `Adequacy.Forward` | `src/libexpr/eval.cc:1244-1864` | Whatever follows by a rule from what the evaluator answers with all fuel from some amount on is itself its answer with all fuel from some amount on |
| `Adequacy.GivenFormal` | `src/libexpr/eval.cc:1585-1605` | In the frame of a call the `@` name holds the argument, and every formal whose name the argument has holds the argument's attribute, whatever its default; any other formal has a default |
| `Adequacy.IfLaw` | `src/libexpr/eval.cc:1860-1864` | A conditional whose condition comes to a boolean comes to exactly what the branch of that boolean comes to |
| `MeaningFrames.NameSlotExact` | `src/libexpr/eval.cc:911-917` | By-name lookup is lexical scoping: it gives the filled slot of the first such name in the innermost frame that binds it, and goes on to `with` frames exactly when no frame of a complete chain binds it |
| `MeaningFrames.NextWithExact` | `src/libexpr/eval.cc:925-944` | The search for `with` frames visits the innermost one and ends exactly when there is none |
| `MeaningFrames.DelayedExactly` | `src/libexpr/eval.cc:1048-1089` | Delaying shares the cell of a variable whose slot is filled, makes a value of a literal, and otherwise a new cell that waits in its frame |
| `MeaningFrames.FrameExactly` | `src/libexpr/eval.cc:1262-1287` | The frame of a `let` or recursive set holds every definition in its slot, inherited ones seen from outside and sources from within, each delayed in turn with the slots before it filled |
| `MeaningFrames.OverrideExactly` | `src/libexpr/eval.cc:1297-1311` | `__overrides` replaces exactly the slots of the definitions it names |
| `MeaningFrames.FormalsExactly` | `src/libexpr/eval.cc:1580-1600` | When no formal is missing, every slot is filled in turn, from the argument if it has the name and from the default otherwise, delayed in the new frame |
| `MeaningFrames.MissingExactly` | `src/libexpr/eval.cc:1585-1596` | Otherwise the error is that of the first formal that is missing |
| `MeaningFrames.TooManyMeans` | `src/libexpr/eval.cc:1602-1625` | With distinct formals, the count of used attributes differs from the argument's size exactly when the argument has an attribute that no formal names |
| `Scope.BindProgram` | `src/libexpr/nixexpr.cc:315-554` | On every AST the parser makes, merged sets included, the pass that writes fields on the nodes throws exactly on the programs the scoping rule rejects, and leaves every node of the others with the fields its static environment dictates |
| `Merging.ParseGuarantees` | `src/libexpr/parser.y:482-513` | Every text the parser accepts becomes an AST with ordered definitions and formals in which every `inherit (from)` definition has a source in bounds; and every such definition's displacement is the index of its own source if and only if no `inherit (from)` of several names was merged into a set that already had sources |
| `Merging.MergeWf` | `src/libexpr/include/nix/expr/parser-state.hh:247-293` | The same for one merge of a set into an earlier definition, nested merges included |
| `Merging.MergeKeepsSource` | `src/libexpr/include/nix/expr/parser-state.hh:265-288` | In the merged set, the index by which a definition of the earlier set knows its source is still that of the same expression |
| `Merging.MergeMovesSource` | `src/libexpr/include/nix/expr/parser-state.hh:265-288` | A definition of the later set moves with its source: its new index is that of the same expression |
| `Merging.MoveNodes` | `src/libexpr/include/nix/expr/parser-state.hh:267-272` | The loop adds the size once for every name to the node the names share, so a node of k names moves k times as far |
| `Merging.ValidateWf` | `src/libexpr/include/nix/expr/parser-state.hh:300-324` | Formals are accepted only with distinct names, different from that of `@`, and are then in order with nothing lost |
| `Paths.SetLeads` | `src/libexpr/include/nix/expr/parser-state.hh:195-293` | Definitions survive parsing: what a set writes at a path of static names, in one binding or nested ones, merged or not, is found by following that path through the sets of the AST, as the parse of what is written there |
| `Paths.LetLeads` | `src/libexpr/parser.y:271-276` | And so it is with the definitions of a `let` |
| `Paths.MergeKeeps` | `src/libexpr/include/nix/expr/parser-state.hh:247-293` | A merge of two sets leads wherever the first led |
| `Paths.MergeBrings` | `src/libexpr/include/nix/expr/parser-state.hh:247-293` | And wherever the second led |
| `Paths.RecSurvives` | `src/libexpr/parser.y:388-391` | A set is recursive in the AST exactly if it is written so, whatever is defined in it |
| `Paths.ParamsSurvive` | `src/libexpr/parser.y:236-268` | A lambda keeps its argument or `@` name, its ellipsis, and exactly its formals, each with the parse of its default |
| `Crossed.CrossedGoesWrong` | `src/libexpr/include/nix/expr/parser-state.hh:267-272` | Witness: with `a = { inherit (x) p; }; a = { inherit (y) q r; };` evaluation of `a.q` reads slot 2 of a frame of two slots, and with a third `a = { inherit (z) s; };` it answers from `z` instead of `y` |
| `Crossed.CrossedDisplacements` | `src/libexpr/include/nix/expr/parser-state.hh:253-288` | What the parser makes of these two texts, displacements included |
| `Nodes.ParseBag` | `src/libexpr/parser.y:482-513` | Parsing and merging neither drop nor duplicate a node: the variables and `with`s of the AST are those of the text, each as often |
| `Nodes.ParsedDistinct` | `src/libexpr/parser.y:482-513` | So a text whose occurrences are distinct gives an AST whose nodes are |
| `Nodes.MergeBag` | `src/libexpr/include/nix/expr/parser-state.hh:247-293` | A merged set has the nodes of both sets |
| `Scope.ChainVisitsEnclosingWiths` | `src/libexpr/nixexpr.cc:329-347` | When the `with` nodes around a place have the fields the pass gives them, the chain from the innermost one along `parentWith`, `prevWith` frames at a time, visits exactly the enclosing `with` frames, innermost first |
| `Scope.PassMakesChains` | `src/libexpr/nixexpr.cc:315-348` | After a successful pass over a program, every variable that no frame binds is noted with the level and node of the innermost enclosing `with`, and the chain from there visits exactly the enclosing `with` frames, innermost first |
| `Scope.NotedChains` | `src/libexpr/nixexpr.cc:534-554` | The same for any expression whose nodes have the fields their static environments dictate |
| `Scope.WithsFitBelow` | `src/libexpr/nixexpr.cc:529-554` | The environments a node gives its children stand under `with` nodes with the right fields, that of a `with` included |
| `Scope.WithDepthsIncrease` | `src/libexpr/nixexpr.cc:534-548` | No `with` frame is visited twice: the depths along the chain strictly increase |
| `Scope.PrevWithIsNextDepth` | `src/libexpr/nixexpr.cc:541-548` | `prevWith` is the number of frames up to the next enclosing `with` frame, and 0 exactly when there is none |
| `Binder.BindExactlyWhenScoped` | `src/libexpr/nixexpr.cc:315-348` | Whatever was written before, the pass succeeds if and only if every variable is scoped: bound by an enclosing `let`, `rec`, lambda or base name, or under some `with` |
| `Binder.LexicalExact` | `src/libexpr/nixexpr.cc:327-340` | The search up the static environments finds a name exactly when some frame that is not a `with` binds it |
| `Binder.BindAllAppend` | `src/libexpr/nixexpr.cc:412-450` | Binding two lists of children in turn is binding the first and, if nothing is undefined, the second |
| `Binder.ScopedIsTasksScoped` | `src/libexpr/nixexpr.cc:351-598` | The scoping rule of every construct agrees with the environments the pass hands to its children, including the three kinds of `inherit` |
| `Annotation.BindAnnotates` | `src/libexpr/nixexpr.cc:315-554` | A successful pass leaves every node of the expression with the fields its static environment dictates and writes to no other node |
| `Annotation.NotedLocal` | `src/libexpr/nixexpr.cc:315-554` | The fields an expression relies on are those of its own nodes only |
| `Annotation.NotedFits` | `src/libexpr/nixexpr.cc:315-554` | With the right fields and definitions that hold their own sources, an expression is ready for evaluation by index |
| `Annotation.TasksSame` | `src/libexpr/nixexpr.cc:381-554` | Which children a node has does not depend on the environment, only where they are bound does |
| `Annotation.LambdaEnvSorted` | `src/libexpr/nixexpr.cc:466-478` | The static frame of a lambda, with `@` and formals, is sorted by name, as `find` needs |
| `StaticVars.SortSorted` | `src/libexpr/include/nix/expr/nixexpr.hh:906-911` | Sorting a frame with distinct names makes it strictly sorted |
| `StaticVars.FindVar` | `src/libexpr/include/nix/expr/nixexpr.hh:925-932` | The bisection finds the entry of the name if and only if the frame has it, and its displacement is the one name resolution uses |
| `AstPass.NearestWithLevel` | `src/libexpr/nixexpr.cc:541-548` | The loop up the environments counts the frames to the nearest `with` |
| `AstPass.NearestWithNode` | `src/libexpr/nixexpr.cc:533-538` | The loop finds the `with` node the nearest `with` frame belongs to |
| `AstPass.BuildDefVars` | `src/libexpr/nixexpr.cc:418-424` | The static frame of a set lists its names with consecutive displacements |
| `AstPass.BuildLambdaVars` | `src/libexpr/nixexpr.cc:466-478` | The static frame of a lambda lists the `@` name first and then the formals in order |
| `AstPass.Ast.BindVar` | `src/libexpr/nixexpr.cc:315-348` | The loop for a variable writes what name resolution dictates (lexical scope before `with`, the innermost `with` before outer ones) or throws the undefined name |
| `AstPass.Ast.BindVars` | `src/libexpr/nixexpr.cc:286-598` | The methods that write node fields leave exactly the notes of the specification and throw exactly when it does |
| `AstPass.Ast.BindAttrs` | `src/libexpr/nixexpr.cc:412-450` | The same for attribute sets, recursive or not, with dynamic attributes |
| `AstPass.Ast.BindSet` | `src/libexpr/nixexpr.cc:381-450` | The same for the three kinds of attribute and the sources of `inherit (from)` |
| `AstPass.Ast.BindLambda` | `src/libexpr/nixexpr.cc:461-486` | The same for lambdas with defaults in formals |
| `AstPass.Ast.BindLet` | `src/libexpr/nixexpr.cc:505-527` | The same for `let` |
| `AstPass.Ast.BindWith` | `src/libexpr/nixexpr.cc:529-554` | The same for `with`, whose own fields are written before its attribute set is bound |
| `Simulation.SimEval` | `src/libexpr/eval.cc:1219-1858` | Main induction: for every expression whose notes fit its frame, both evaluators take the same steps from corresponding heaps, the heap keeps matching the static frames, and the result is never a crash |
| `Simulation.SimCallFunction` | `src/libexpr/eval.cc:1528-1661` | The same for calls of lambdas and functors |
| `Simulation.SimArgFrame` | `src/libexpr/eval.cc:1558-1629` | The frame built for a call matches the static frame of the lambda, `@` first, formals in order, defaults seeing the frame itself |
| `Simulation.SimWiths` | `src/libexpr/eval.cc:925-941` | Walking the recorded chain of `with` frames finds the same attribute as searching every enclosing `with` frame outwards, with the same forcing along the way |
| `Simulation.SimRecFrame` | `src/libexpr/eval.cc:1262-1284` | The frame of a recursive set and its source frame match their static frames slot by slot |
| `Simulation.SimOverride` | `src/libexpr/eval.cc:1296-1315` | `__overrides` writes the slots of the overridden names and leaves the frame matching |
| `Simulation.SimOverridden` | `src/libexpr/eval.cc:1296-1347` | From forcing `__overrides` on, both evaluators build the same set: overrides, then dynamic attributes |
| `Simulation.SimAddDynamic` | `src/libexpr/eval.cc:1328-1347` | Dynamic attributes are named and thunked in the recursive frame alike by both evaluators |
| `Simulation.SimSourceFrame` | `src/libexpr/eval.cc:1244-1254` | The frame of `inherit (from)` sources is built alike by both evaluators, has one slot for each source and leaves the other frames alone |
| `Simulation.SourceFrameHolds` | `src/libexpr/eval.cc:1244-1254` | Slot d of that frame stands for source d, in the frame above it: the source is delayed there, or was a literal or a reference already filled |
| `HeapTyping.FindSlotAgrees` | `src/libexpr/eval.cc:911-923` | Going up `level` frames and reading slot `displ` reads the slot of the innermost frame that binds the name |
| `HeapTyping.SourceSlotAgrees` | `src/libexpr/include/nix/expr/nixexpr.hh:264-280` | A definition whose node holds the index of its own source reads exactly that slot, in bounds |
| `HeapTyping.LexicalSlot` | `src/libexpr/eval.cc:911-923` | When lexical resolution succeeds, the walk up stays in the heap, the displacement is in the frame, and the slot is the one named |
| `HeapTyping.NearestWithFrame` | `src/libexpr/eval.cc:925-941` | The nearest `with` frame at run time is as many frames up as the pass counted |
| `HeapTyping.NewEnvFits` | `src/libexpr/eval.cc:1262-1266` | Allocating a frame of the right shape keeps every frame matching its static frame |
| `HeapTyping.SetSlotFits` | `src/libexpr/eval.cc:1276-1284` | Filling a slot keeps every frame matching |
| `EvalCache.Run` | `src/libexpr/eval-cache.cc:308-697` | Any sequence of operations by any number of interleaved sessions on one database keeps the table sound; the answer to every operation is of its kind, for its name, at the path of the cursor it names; and it is exactly the one direct evaluation gives if and only if, when the operation began, the cache was not about to part ways with the value; what may be answered otherwise is stated too |
| `EvalCache.Ask` | `src/libexpr/eval-cache.cc:438-697` | From any sound state, one operation answers for the cursor and name it is given, and as direct evaluation does if and only if none of these holds: a root failure on record, a recorded failure of that child below a placeholder, a path on record that is shown otherwise, an integer beyond a C `int` that went through the table |
| `EvalCache.AttrCursor.MaybeGetAttr` | `src/libexpr/eval-cache.cc:438-494` | The lookup answers as direct evaluation does if and only if the cursor is not a root with a failure on record and there is no recorded failure of that child below a placeholder; what it answers in those two cases is stated too |
| `EvalCache.AttrCursor.GetInt` | `src/libexpr/eval-cache.cc:613-632` | The integer returned is the value's own if and only if it fits a C `int` or the cursor goes by one it has evaluated itself; otherwise it is the truncated one |
| `EvalCache.AttrCursor.GetBool` | `src/libexpr/eval-cache.cc:592-611` | Exactly the value's boolean, or an error when it is none |
| `EvalCache.AttrCursor.GetString` | `src/libexpr/eval-cache.cc:528-547` | Exactly the value's string, an error for other types, and for a path one rendering when a string is on record and the other when it is evaluated |
| `EvalCache.AttrCursor.GetAttrs` | `src/libexpr/eval-cache.cc:667-697` | Exactly the names of the set, or an error when it is none |
| `EvalCache.AttrCursor.GetKey` | `src/libexpr/eval-cache.cc:332-341` | The row of the parent is always known before a child asks for its key, so the assertion never fires, and the key is that of the cursor's own place |
| `EvalCache.AttrCursor.ForceValue` | `src/libexpr/eval-cache.cc:394-436` | Forcing returns the value and records a row that is true of it; an evaluation error is recorded, any other exception is not, and a set is left for `getAttrs` to record |
| `EvalCache.AttrDb.Insert` | `src/libexpr/eval-cache.cc:122-197` | Every write of one row keeps the whole table true of the value tree, and all cursors, stale ones included |
| `EvalCache.AttrDb.SetAttrs` | `src/libexpr/eval-cache.cc:122-137` | Recording a set replaces its row by a fresh one with exactly the names of the set below it |
| `EvalCache.AttrDb.GetAttr` | `src/libexpr/eval-cache.cc:243-287` | What is read back is placed where it was stored and is true of the value there |
| `EvalCache.AttrDb.CursorsKept` | `src/libexpr/eval-cache.cc:394-436` | Rows kept by other cursors stay true while the table grows |
| `EvalCache.Cache.GetRoot` | `src/libexpr/eval-cache.cc:318-321` | A new root cursor knows nothing yet and stands for the root value |
| `EvalCache.InsertKeepsTrue` | `src/libexpr/eval-cache.cc:139-241` | Soundness of the table is kept by every single row, provided a missing name is not filed below a complete set |
| `EvalCache.SetAttrsKeepsTrue` | `src/libexpr/eval-cache.cc:122-137` | A complete set row with a row for each of its names keeps the table sound |
| `EvalCache.StoredIntExact` | `src/libexpr/eval-cache.cc:174-183` | An integer survives storage exactly when it fits a C `int` |
| `EvalCache.FailedRootForgets` | `src/libexpr/eval-cache.cc:438-464` | Witness: a failing root throws at the first lookup and answers "no attribute" at the second |
| `EvalCache.FailedChildIsReportedEarly` | `src/libexpr/eval-cache.cc:449-459` | Witness: an attribute that fails is found at first, and once forced its lookup throws |
| `EvalCache.LargeIntIsTruncated` | `src/libexpr/eval-cache.cc:613-632` | Witness: 2147483648 reads back as -2147483648 in the next session |
| `Application.CallIsApplyAll` | `src/libexpr/eval.cc:1528-1767` | The n-ary loop equals applying one argument at a time, for lambdas, primitive operations, partial applications and functors, every argument list and every state |
| `Application.CallSplits` | `src/libexpr/eval.cc:1528-1767` | Calling with xs ++ ys equals calling with xs and calling the result with ys |
| `Application.ApplyAllShort` | `src/libexpr/eval.cc:1545-1552` | With fewer arguments than a primitive operation still needs, the result is a well-formed chain and nothing runs |
| `Application.ApplyAllExact` | `src/libexpr/eval.cc:1692-1739` | With exactly the arguments it needs, the operation runs once, on all of them in application order |
| `Application.ChainWellFormed` | `src/libexpr/eval.cc:1704-1707` | A chain built from too few arguments stays strictly shorter than the arity |
| `Application.ChainIs` | `src/libexpr/eval.cc:1545-1552` | A chain holds the arguments it was built from, after those it had, with the same operation at its head |
| `Application.MoreFuel` | `src/libexpr/eval.cc:1742-1756` | A call that ends gives the same outcome with any larger bound on functor nesting |
| `Application.ApplyPlain` | `src/libexpr/eval.cc:1528-1767` | A lambda runs its body on the argument; data and sets without `__functor` are an error |
| `Application.FunctorRunsOperation` | `src/libexpr/eval.cc:1742-1756` | A functor whose cell holds an operation of arity 2 runs it once, on the set's own cell and then the argument |
| `Application.FunctorAppliesLambda` | `src/libexpr/eval.cc:1742-1756` | A functor that holds a lambda applies it to the set's own cell, and what comes of that to the argument |
| `Application.MakeAppChain` | `src/libexpr/eval.cc:1545-1552` | The loop builds exactly that chain |
| `Application.WriteChain` | `src/libexpr/eval.cc:1712-1715` | Walking the chain from its end fills `vArgs` from the back, in bounds, with the chain's arguments in application order |
| `Application.CollectArgs` | `src/libexpr/eval.cc:1712-1718` | The array handed to the operation is the chain's arguments followed by the new ones and has exactly the arity |
| `Application.CallFunction` | `src/libexpr/eval.cc:1528-1767` | The loop that consumes `args` computes the specified call |
| `Equality.EqIsEquivalence` | `src/libexpr/eval.cc:2919-2988` | On data without functions and floats, `eqValues` is reflexive, symmetric and transitive, also where derivations are compared by `outPath` only and mixed with other sets |
| `Equality.AddressesDoNotMatter` | `src/libexpr/eval.cc:2926-2930` | The pointer shortcut changes no answer on such data |
| `Equality.SameTransitive` | `src/libexpr/eval.cc:2968-2988` | Transitivity of structural equality, mixed derivation and non-derivation cases included |
| `Equality.SameSymmetric` | `src/libexpr/eval.cc:2919-2988` | Symmetry for all values |
| `Equality.SamePartsKind` | `src/libexpr/eval.cc:2447-2458` | Sets with equal attributes are both derivations with an `outPath` or neither |
| `Equality.SelfEqualExactly` | `src/libexpr/eval.cc:2919-2988` | A value equals a copy of itself if and only if what is compared contains no function and no NaN |
| `Equality.SameIsSameTree` | `src/libexpr/eval.cc:2919-3003` | Two values are equal if and only if, with addresses erased and packages reduced to their output path, their trees are identical and contain no function and no NaN |
| `Equality.DataSameTree` | `src/libexpr/eval.cc:2919-3003` | On data equality is identity of these trees |
| `Equality.PackagesByOutPath` | `src/libexpr/eval.cc:2968-2976` | Two derivations with an `outPath` are equal exactly when these are, whatever else they hold |
| `Equality.AnswerLeftFirst` | `src/libexpr/eval.cc:2923-2962` | The left side is forced before the right one, and sizes are compared before parts |
| `Equality.ListAnswerAt` | `src/libexpr/eval.cc:2959-2966` | The first position of two lists that does not answer true decides, be it with false or an error |
| `Equality.AttrsAnswerAt` | `src/libexpr/eval.cc:2978-2988` | So does the first position of two sets at which names differ or values do not answer true |
| `Equality.EqValues` | `src/libexpr/eval.cc:2919-3003` | The procedure gives the specified answer for every pair of values, or throws what the first failing part throws, left side first |
| `Equality.AssertEqValues` | `src/libexpr/eval.cc:2708-2916` | It returns normally exactly when `eqValues` answers true, explains a difference exactly when it answers false, throws an error exactly when it throws the same one, and never reaches its `assert(false)` points |
| `Equality.AnswerIsEq` | `src/libexpr/eval.cc:2919-3003` | An answer is that of structural equality, whatever parts not reached would throw |
| `Equality.AnswerThrows` | `src/libexpr/eval.cc:2923-2924` | An error is that of forcing some part of one of the two values |
| `Equality.AnswerOnData` | `src/libexpr/eval.cc:2919-3003` | On data there is always an answer, that of the equality whose laws are proved |
| `Equality.AnswerNotSymmetric` | `src/libexpr/eval.cc:2968-2976` | Witness: comparing the empty set with a set whose `type` throws answers false, the other way round it throws |
| `Equality.AssertEqAttrs` | `src/libexpr/eval.cc:2811-2880` | Two sorted attribute lists of which neither has a name the other lacks are compared pairwise; a difference is always explained |
| `Equality.DifferenceExplained` | `src/libexpr/eval.cc:2841-2860` | Sorted lists that differ in a name differ by a name one of them lacks |
| `Equality.GetAttr` | `src/libexpr/include/nix/expr/attr-set.hh:353-373` | The bisection finds an attribute exactly when the set has it |
| `Ordering.LessTransitive` | `src/libexpr/primops.cc:733-791` | `CompareValues` is transitive on all data it compares |
| `Ordering.LessIrreflexive` | `src/libexpr/primops.cc:733-791` | Nothing compares less than itself |
| `Ordering.LessAsymmetric` | `src/libexpr/primops.cc:733-791` | Of two values at most one compares less, and the comparison is refused in both directions or neither |
| `Ordering.LessCongruent` | `src/libexpr/primops.cc:733-791` | Equal values compare alike |
| `Ordering.ScalarLessMeans` | `src/libexpr/primops.cc:740-763` | Numbers of either kind compare as the reals they stand for, strings and paths byte by byte, and nothing else except lists compares |
| `Ordering.BytesLessMeans` | `src/libexpr/primops.cc:757-763` | Byte by byte: less if and only if a proper prefix, or smaller at the first byte that differs |
| `Ordering.MoreIsGreater` | `src/libexpr/primops.cc:753-754` | Adding a positive number makes an integer greater |
| `Ordering.ListLessExactly` | `src/libexpr/primops.cc:764-774` | A list is less if and only if it is a proper prefix up to equality, or less at the first position that is not equal |
| `Ordering.ListLessMeans` | `src/libexpr/primops.cc:764-774` | The first position where two lists are not equal decides, refusals included |
| `Ordering.Trichotomy` | `src/libexpr/primops.cc:759-763` | Exactly one of less, equal and greater holds for comparable values, if and only if the comparison does not come down to equal paths of different accessors |
| `Ordering.ShapeOrder` | `src/libexpr/primops.cc:733-791` | On values of one shape the comparison is a strict total order consistent with `eqValues` |
| `Ordering.ShapeComparable` | `src/libexpr/primops.cc:740-747` | Values of one shape always compare and never involve foreign paths |
| `Ordering.CompareValues` | `src/libexpr/primops.cc:733-791` | The procedure computes the order on all values, functions, sets and floats included, list elements compared by `eqValues` first, whose errors come through |
| `Ordering.OrderIsLess` | `src/libexpr/primops.cc:764-774` | On data in memory, the order with its pointer shortcuts is the structural order whose laws are proved |
| `Ordering.ForeignPathsFail` | `src/libexpr/primops.cc:759-763` | Witness: two paths spelled `/` under different accessors are neither less nor equal |
| `Closure.GenericClosure` | `src/libexpr/primops.cc:796-909` | The work list ends whenever the reachable keys are finitely many up to equality, wherever in memory they are; the result is the list of the first elements, by key, of the start set followed by what the operator makes of each element of the result in turn; its keys are pairwise distinct, every element is from the start set or produced by an earlier one, and everything from the start set and from the operator on the result has a key, which is covered; an error names an element the loop met that has no key, a key that does not compare with a result's, or a new key and an operator that throws |
| `Closure.ClosureOfOneShape` | `src/libexpr/primops.cc:796-909` | With keys of one shape and a total operator it never fails, no two keys are equal, every element reached has an equal key in the result, and the elements are in that order |
| `Closure.ClosureDetermined` | `src/libexpr/primops.cc:796-909` | These conditions leave one list only, element by element |
| `Closure.Search` | `src/libexpr/primops.cc:851-854` | A sorted map probed with the comparison finds a key that neither precedes nor follows the given one, or the one place where it may be inserted |
| `Closure.KeysBounded` | `src/libexpr/primops.cc:796-909` | There are never more results than reachable keys up to equality |
| `Closure.AddStep` | `src/libexpr/primops.cc:851-902` | Adding an element with a new key keeps everything the loop maintains |
| `Bindings.EvalUpdate` | `src/libexpr/eval.cc:2010-2044` | For every nesting of `//`, the flattened evaluation gives a well-formed set that means the right-biased union of the operands, and throws what the first failing operand from the right throws |
| `Bindings.Update` | `src/libexpr/eval.cc:1935-2008` | Empty shortcut, layering or copying: the result is well formed and means the union with the right operand winning |
| `Bindings.MergeSets` | `src/libexpr/eval.cc:1976-2007` | The two-iterator merge writes the union in strict order and within the builder's capacity |
| `Bindings.UpdateAll` | `src/libexpr/eval.cc:2015-2023` | Folding the queue from its end joins the operands from left to right |
| `Bindings.EvalForUpdate` | `src/libexpr/eval.cc:2026-2044` | The queue holds the operands rightmost first, and the first failure from the right is thrown |
| `Bindings.List` | `src/libexpr/include/nix/expr/attr-set.hh:130-340` | Iterating over any chain of layers gives a strictly sorted list with exactly the attributes of the set, as many as its size says |
| `Bindings.ListingsAgree` | `src/libexpr/eval.cc:1935-2044` | Whichever steps layered or copied, sets that mean the same iterate alike |
| `Bindings.MergeIterator.Advance` | `src/libexpr/include/nix/expr/attr-set.hh:309-327` | One step of the merging iterator moves to the next listed attribute, hidden attributes of lower layers being skipped |
| `Bindings.MergeIterator.constructor` | `src/libexpr/include/nix/expr/attr-set.hh:260-294` | The iterator starts at the first attribute of the listing |
| `Bindings.LeastIsNext` | `src/libexpr/include/nix/expr/attr-set.hh:218-258` | The least cursor, once past the last name, points at the next attribute, from the topmost layer that has it |
| `Bindings.StartMeans` | `src/libexpr/include/nix/expr/attr-set.hh:283-288` | The cursors of all layers together hold what the chain means |
| `Bindings.Get` | `src/libexpr/include/nix/expr/attr-set.hh:353-373` | Searching the layers from the top finds exactly what the set means for the name |
| `Bindings.LayeredSize` | `src/libexpr/include/nix/expr/attr-set.hh:478-511` | The size stored for a layered set is the number of distinct names, by either way of counting duplicates |
| `Bindings.CountInStep` | `src/libexpr/include/nix/expr/attr-set.hh:496-502` | Reading both in step counts the names in common |
| `Bindings.CountByLookup` | `src/libexpr/include/nix/expr/attr-set.hh:503-508` | Looking every name up counts the same |
| `Bindings.ListingUnique` | `src/libexpr/include/nix/expr/attr-set.hh:130-340` | There is one strictly sorted list for each meaning |
| `AttrsBuilder.EvalAttrs` | `src/libexpr/eval.cc:1256-1351` | The set built is sorted and means the static attributes, overridden and extended by `__overrides`, with every named dynamic attribute; it fails at the first dynamic attribute that is not fine and there only; the frame of a recursive set holds the overridden values; every lookup runs on a sorted array and no insertion exceeds the capacity |
| `AttrsBuilder.AddDynamics` | `src/libexpr/eval.cc:1328-1351` | The loop over dynamic attributes, with its sort flag |
| `AttrsBuilder.ApplyOverrides` | `src/libexpr/eval.cc:1304-1315` | Overridden attributes are replaced in place, in the array and in the frame, and the others appended |
| `AttrsBuilder.FineExactly` | `src/libexpr/eval.cc:1328-1347` | No dynamic attribute fails if and only if all names evaluate, the names that are not null are distinct and none is defined already |
| `AttrsBuilder.DuplicateExactly` | `src/libexpr/eval.cc:1338-1344` | The duplicate error means that the name is a static or overriding one or an earlier dynamic one |
| `AttrsBuilder.DefinedValues` | `src/libexpr/eval.cc:1328-1347` | Every dynamic attribute keeps its own value and the other attributes keep theirs |
| `AttrsBuilder.DefinedNames` | `src/libexpr/eval.cc:1328-1347` | The names of the result are those of the base and of the dynamic attributes |
| `AttrsBuilder.SortMeans` | `src/libexpr/attr-set.cc:36-39` | Sorting an array with distinct names sorts it by name and keeps what it means |
| `AttrsBuilder.OverrideReplaces` | `src/libexpr/eval.cc:1306-1309` | An overridden attribute is replaced where its displacement says |
| `AttrsBuilder.OverrideAdds` | `src/libexpr/eval.cc:1310-1311` | A new name is appended and stays distinct |
| `AttrsBuilder.BindingsBuilder.Insert` | `src/libexpr/include/nix/expr/attr-set.hh:527-531` | The attribute is appended; what lies beyond it in the array is untouched |
| `AttrsBuilder.BindingsBuilder.Grow` | `src/libexpr/include/nix/expr/attr-set.hh:571-576` | Moving to a larger buffer keeps the contents |
| `ListToAttrs.ListToAttrs` | `src/libexpr/primops.cc:3311-3359` | The result is strictly sorted, has exactly the input names and maps each to the value of its first occurrence; it succeeds if and only if all names evaluate and every first occurrence has a value; which error is thrown is stated |
| `ListToAttrs.CompactPairs` | `src/libexpr/primops.cc:3341-3358` | Compaction inside the same array overwrites no entry before it is read |
| `ListToAttrs.SortPairs` | `src/libexpr/primops.cc:3321-3338` | The array holds the names with their positions, ordered by name and position |
| `ListToAttrs.LeadsIsFirst` | `src/libexpr/primops.cc:3335-3347` | In that order an entry is the first of its name if and only if it is the first occurrence in the list |
| `ListToAttrs.CompactIsResult` | `src/libexpr/primops.cc:3341-3353` | The kept entries are exactly the documented result |
| `ListToAttrs.FailureIsLeast` | `src/libexpr/primops.cc:3349-3351` | A missing `value` is reported for the least such name, and for first occurrences only |
| `ReplaceStrings.ReplaceAll` | `src/libexpr/primops.cc:5187-5225` | The loop ends for all inputs, empty patterns included, and equals the recursive left-to-right, first-listed-pattern replacement with the cache erased; it adds the contexts of exactly the replacements used, and fails exactly when a used replacement throws, as the first of these |
| `ReplaceStrings.ReplaceStrings` | `src/libexpr/primops.cc:5163-5225` | The whole primop: it succeeds exactly when the lists are equally long and the patterns, the text and every replacement used evaluate, with the specified text and contexts; which error is thrown is stated for every other case |
| `ReplaceStrings.SameListsIdentity` | `src/libexpr/primops.cc:5163-5225` | When `to` lists the same texts as `from`, the text comes back unchanged |
| `ReplaceStrings.Identity` | `src/libexpr/primops.cc:5187-5222` | Replacing every pattern by itself changes nothing, from any position |
| `ReplaceStrings.EmptyPattern` | `src/libexpr/primops.cc:5187-5222` | With the empty pattern alone, the replacement comes before every character and once more at the end |
| `ReplaceStrings.NothingUsed` | `src/libexpr/primops.cc:5217-5222` | Text in which nothing matches is left alone |
| `ReplaceStrings.ReplaceIsJoin` | `src/libexpr/primops.cc:5187-5222` | With one nonempty pattern, replacing equals splitting at its occurrences and joining with the replacement |
| `ReplaceStrings.OnlyUsedMatter` | `src/libexpr/primops.cc:5199-5208` | Replacements that are not used do not matter |
| `ReplaceStrings.FailsExactly` | `src/libexpr/primops.cc:5199-5208` | There is a failure exactly when some used replacement throws |
| `ReplaceStrings.Replacement` | `src/libexpr/primops.cc:5199-5208` | The cache returns what evaluation would, and contexts are added once for each replacement used |
| `JsonSax.RunValue` | `src/libexpr/json-to-value.cc:14-195` | For every document and every state waiting for a value: either the events leave the stack as it was, with the value in the cell the state has noted and no other old cell changed, or the machine throws what the first unacceptable part calls for |
| `JsonSax.RunMembers` | `src/libexpr/json-to-value.cc:51-75` | The members of an object: each key reserves its cell before its value, and the last of equal names counts |
| `JsonSax.RunItems` | `src/libexpr/json-to-value.cc:77-101` | The items of a list, in order |
| `JsonSax.CloseObject` | `src/libexpr/json-to-value.cc:56-63` | Closing an object hands its cell to the state below |
| `JsonSax.CloseList` | `src/libexpr/json-to-value.cc:81-88` | Closing a list hands its cell to the state below |
| `JsonSax.HoldsFramed` | `src/libexpr/json-to-value.cc:39-44` | A value already built is not disturbed by later ones |
| `JsonSax.RunAppend` | `src/libexpr/json-to-value.cc:111-195` | Feeding two runs of events in turn is feeding the first and, unless it throws, the second |
| `JsonSax.Parser.Parse` | `src/libexpr/json-to-value.cc:203-209` | A document is rejected exactly when a string or name has a null byte or an integer literal is above the largest signed and within the unsigned 64-bit range, with the first such error; otherwise the result cell holds it, duplicate names resolved to the last, and the stack is back at the top |
| `JsonSax.Parser.Handle` | `src/libexpr/json-to-value.cc:111-195` | Each callback changes the stack and the heap as the specified step does |
| `JsonSax.Parser.Close` | `src/libexpr/json-to-value.cc:179-189` | Resolving a state writes into its parent, and closing the top level is an error |
| `JsonSax.Parser.SetKey` | `src/libexpr/json-to-value.cc:70-74` | A key files the cell of the value to come under its name |
| `JsonPrinter.RoundTrip` | `src/libexpr/value-to-json.cc:13-105` | Feeding the events of what `printValueAsJSON` makes of a value rebuilds it: for every finite tree of null, booleans, 64-bit integers, strings, lists and sets without `outPath` and `__toString` |
| `JsonPrinter.Rebuilds` | `src/libexpr/value-to-json.cc:51-90` | Whatever cell holds the printed document holds the value |
| `JsonPrinter.DataIsPrinted` | `src/libexpr/value-to-json.cc:13-105` | Such a value always prints, and to something the parser accepts |
| `JsonPrinter.PrintValue` | `src/libexpr/value-to-json.cc:13-105` | The recursive printer with its loops computes the specified document or the first error, and in either case adds the contexts of exactly what has been printed |
| `JsonMeaning.PrintIsRight` | `src/libexpr/value-to-json.cc:13-105` | What the printer makes of a value, without reference to the printer: the document (`__toString` before `outPath` before members, members by increasing name), exactly which values print, the first error, and as context exactly the items of the strings, paths and conversions among the printed parts |
| `JsonMeaning.DataBrings` | `src/libexpr/value-to-json.cc:13-105` | On data these are the items of all string leaves |
| `JsonMeaning.PrintData` | `src/libexpr/value-to-json.cc:13-105` | Printing data adds to the context exactly the items of all string leaves |
| `JsonPrinter.LexOrderOk` | `src/libexpr/include/nix/expr/attr-set.hh:420-430` | The lexicographic order lists every attribute once, by strictly increasing name |
| `Repl.NixRepl.Session` | `src/libcmd/repl.cc:737-868` | Over every session: an expression bound when it was entered denotes at the end the value its name was most recently bound to then, whatever was added, rebound or reset since |
| `Repl.NixRepl.Execute` | `src/libcmd/repl.cc:737-868` | Slots in use are written once: no command changes them in the frame there was, and a reset starts a new frame |
| `Repl.NixRepl.AddAttrsToScope` | `src/libcmd/repl.cc:818-834` | A set is added as a whole, or refused with nothing changed exactly when it would reach the frame size; later attributes win by name |
| `Repl.NixRepl.AddVarToScope` | `src/libcmd/repl.cc:858-868` | The name is rebound to a new slot, or the command is refused exactly when the frame is full |
| `Repl.NixRepl.BindName` | `src/libexpr/include/nix/expr/nixexpr.hh:925-932` | A name resolves to the slot of its most recent binding, and to nothing exactly when it was never bound |
| `Repl.NixRepl.InitEnv` | `src/libcmd/repl.cc:737-747` | A reset leaves an empty scope over a new frame |
| `StaticVars.Deduplicate` | `src/libexpr/include/nix/expr/nixexpr.hh:913-923` | The in-place pass makes a sorted list strictly sorted and keeps the last entry of every name |
| `StaticVars.SortKeepsLast` | `src/libexpr/include/nix/expr/nixexpr.hh:906-911` | The stable sort keeps the last entry of a name last |
| `Repl.Rebind` | `src/libcmd/repl.cc:862-865` | Erasing the old entry and sorting in the new one resolves that name to the new slot and every other name as before |

## Left out

- Store, fetchers, derivations, path realisation, regular expressions, hashing, XML and the C API: input, output or other libraries.
- Error traces, positions, debugger hooks, profiling, statistics and documentation comments: no effect on results.
- Garbage collection, symbol interning and the layout of values in memory: the heap is unlimited and symbols are given.
- The call depth limit and interrupts: evaluation is bounded by fuel instead.
- The evaluator of the scope part is a function that passes a store along, with fuel, rather than methods that update values in place; the pass that writes node fields is imperative.
- Operators, string interpolation, assertions, `hasAttr`, dynamic names in selection paths, primitive operations and recoverable errors are not part of the scope part's evaluator; none of them binds a name. Attribute sets are maps there; the arrays behind them are modelled in `Bindings` and `AttrsBuilder`.
- Scope.CompilationPreservesMeaning: programs in which an `inherit (from)` of several names was merged into a set that already had sources are excluded from the agreement of the two evaluators, because there it fails (`Crossed.CrossedGoesWrong`); the exact condition, and what is still proved of such programs, are in `Merging.ParseGuarantees` and `Scope.BindProgram`. That every occurrence of a variable or `with` in the text is a node of its own is assumed.
- Adequacy.EvalIsDerivable: evaluation that goes wrong, by a read outside a frame or through an empty slot, has no derivation; `Scope.CompilationPreservesMeaning` shows that it does not happen on accepted texts without crossed sources.
- Paths.SetLeads: which frames the parts of a merged set see is stated of the AST, since a merge forgets whether the later set was written recursive. Paths with dynamic names are left to `Nodes`, and `inherit (from)` to `Merging`.
- Parsing: the model starts from the tree the grammar finds, without tokens, positions, strings with interpolation and operators. Sets under construction are values; the node shared by the names of one `inherit (from)` is known by its source, and `Merging.MoveNodes` is the loop that moves it in place. The message of a duplicate attribute names the last attribute of the path only.
- Simulation.SimCallFunction: a call whose arguments do not fit drops its new frame, which nothing refers to any more, so that the heap still matches after the error; the name of an unexpected argument is not recorded, and primitive operations are modelled in `Application` alone.
- The 32-bit widths of level, displacement, attribute counts and of the size of a chain are unbounded numbers.
- EvalCache.Run: string contexts (the copy in memory drops them), `getListOfStrings`, `getStringWithContext`, SQLite failures, concurrency, the mode without a database, and the order of names are not modelled.
- EvalCache.AttrCursor.GetString: string contexts are dropped.
- EvalCache.AttrCursor.GetAttrs: the names are a set; freshly evaluated ones are sorted in the source, and those read back come in the order of the database.
- Application.MoreFuel: fuel bounds the nesting of functors only; function bodies, primitive operations, forcing and allocation are arbitrary. A primitive operation of arity 0 never reaches the loop, because `addPrimOp` makes it an application of arity 1.
- Equality.EqValues: cyclic values, on which it recurses without end, are not modelled.
- Conversion of integers to floating point when they are compared with floats is exact in the model, infinities do not occur, and external values are not compared.
- Ordering.ShapeOrder: the laws of the order are proved on data without functions and floats; with floats they fail, since NaN is neither less than, equal to nor greater than anything.
- Closure.GenericClosure: keys are data in this sense, the operator is a function, and the errors about missing `startSet` or `operator` attributes are not modelled.
- The binary heap behind the merging iterator and `std::sort` are taken by their specifications; `Bindings::sort` is a sorting function whose result is written back into the array.
- AttrsBuilder.EvalAttrs: thunks, frames and forcing are inputs here, since `Simulation` covers which expression goes with which frame.
- ListToAttrs.ListToAttrs: forcing an element and its `name` is one outcome.
- JSON text: the lexer and serialiser of the JSON library, with their treatment of escapes, invalid UTF-8 and floating point, are not modelled. Documents are trees of what the lexer reports: an integer literal that fits neither 64-bit type is a float to it, and so is a float in the tree. The round trip leaves floats out.
- JsonPrinter.PrintValue: calling `__toString`, copying a path to the store, forcing a thunk and printing an external value are outcomes in the tree.
- Repl.NixRepl.Session: evaluation, printing, loading of files and flakes and completion are left out; a loaded set arrives as its list of attributes or as a failure.
- Attribute path parsing and the other primitive operations, among them `zipAttrsWith`, `intersectAttrs` and `removeAttrs`.
