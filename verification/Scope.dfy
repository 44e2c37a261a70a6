/** Scope compilation, end to end: the main results about `bindVars` and the
    evaluator that follows its notes. */
module Scope {
  import opened Common
  import opened StaticVars
  import opened Syntax
  import opened Binder
  import opened Annotation
  import opened AstPass
  import opened Parser
  import opened Merging
  import opened Nodes
  import opened Runtime
  import opened HeapTyping
  import opened Simulation
  import opened Meaning
  import opened Adequacy

  /* A program in the base environment */

  function BaseSlots(names: seq<Symbol>): (r: seq<VarSlot>)
    ensures |r| == |names| && forall i :: 0 <= i < |r| ==> r[i] == VarSlot(names[i], i)
  {
    seq(|names|, i requires 0 <= i < |names| => VarSlot(names[i], i))
  }

  /** The static base environment: names in the order the constants were added, sorted. */
  function BaseEnv(names: seq<Symbol>): StaticEnv {
    StaticEnv(None, SortVars(BaseSlots(names)), NoEnv)
  }

  ghost predicate AllDistinct(names: seq<Symbol>) {
    forall i, j :: 0 <= i < j < |names| ==> names[i] != names[j]
  }

  ghost function NameSet(names: seq<Symbol>): set<Symbol> {
    set n | n in names
  }

  /** Constants: data whose parts are further cells, but no lambdas. */
  ghost predicate IsConstant(cells: nat, v: Value) {
    match v
    case VAttrs(attrs) => AttrsFit(cells, attrs)
    case VList(elems) => forall i :: 0 <= i < |elems| ==> elems[i] < cells
    case VLambda(_, _, _, _) => false
    case _ => true
  }

  /** A heap of constants and the base environment, whose slots are the given cells. */
  function BaseHeap(names: seq<Symbol>, constants: seq<Value>, slots: seq<Addr>): Heap
    requires |names| == |slots|
  {
    Heap(seq(|constants|, i requires 0 <= i < |constants| => Done(constants[i])),
         [Env(names, false, FullSlots(slots), None)])
  }

  ghost predicate IsBase(names: seq<Symbol>, constants: seq<Value>, slots: seq<Addr>) {
    && |names| == |slots| && AllDistinct(names)
    && (forall i :: 0 <= i < |slots| ==> slots[i] < |constants|)
    && (forall i :: 0 <= i < |constants| ==> IsConstant(|constants|, constants[i]))
  }

  /** Following the notes gives what looking names up gives, and never goes wrong. */
  ghost predicate SameMeaning(e: Expr, notes: Notes, h: Heap, fuel: nat) {
    var named := Eval(ByName, e, h, 0, fuel);
    var indexed := Eval(ByIndex(notes), e, Erase(h), 0, fuel);
    indexed.r == named.r && indexed.h == Erase(named.h) && indexed.r != Err(Crash)
  }

  const NO_NOTES := Notes(map[], map[])

  lemma {:induction false} BaseHeapFits(names: seq<Symbol>, constants: seq<Value>, slots: seq<Addr>, notes: Notes)
    requires IsBase(names, constants, slots)
    ensures HeapFits([FrameTy(BaseEnv(names), 0)], notes, BaseHeap(names, constants, slots), None)
  {
    forall name
      ensures FindName(BaseEnv(names).vars, name) == IndexOf(names, name)
    {
      LookupInOrder(BaseSlots(names), names, name);
    }
    var h := BaseHeap(names, constants, slots);
    var S := [FrameTy(BaseEnv(names), 0)];
    forall c | 0 <= c < |h.cells|
      ensures CellFits(S, notes, |h.cells|, h.cells[c])
    {
      assert IsConstant(|constants|, constants[c]);
    }
  }

  lemma {:induction false} BaseNames(names: seq<Symbol>)
    ensures BoundNames(BaseEnv(names)) == NameSet(names)
    ensures !HasWith(BaseEnv(names))
  {
    var slots := BaseSlots(names);
    forall x
      ensures x in BoundNames(BaseEnv(names)) <==> x in NameSet(names)
    {
      if x in names {
        var i :| 0 <= i < |names| && names[i] == x;
        assert slots[i] in slots;
        InSorted(slots, slots[i]);
      }
      forall v | v in SortVars(slots)
        ensures v.name in names
      {
        InSorted(slots, v);
        var i :| 0 <= i < |slots| && slots[i] == v;
      }
    }
  }

  /** For every expression whose `inherit (from)` definitions hold the index of their own
      source: the evaluator that follows the notes of a successful pass does what the evaluator
      that looks names up does. */
  lemma {:induction false} NotesPreserveMeaning(
      e: Expr, names: seq<Symbol>, constants: seq<Value>, slots: seq<Addr>, fuel: nat)
    requires Wf(e, 0, true) && Distinct(e) && IsBase(names, constants, slots)
    requires Bind(e, BaseEnv(names), NO_NOTES).Bound?
    ensures SameMeaning(e, Bind(e, BaseEnv(names), NO_NOTES).notes, BaseHeap(names, constants, slots), fuel)
  {
    var env := BaseEnv(names);
    var notes := Bind(e, env, NO_NOTES).notes;
    BindAnnotates(e, env, NO_NOTES);
    NotedFits(e, env, 0, notes);
    BaseHeapFits(names, constants, slots, notes);
    var _ := SimEval([FrameTy(env, 0)], notes, e, BaseHeap(names, constants, slots), 0, fuel);
  }

  /** Scope compilation preserves meaning. For every text the parser accepts and every amount
      of fuel: the pass rejects it exactly when some variable has neither a binder nor an
      enclosing `with`; every `inherit (from)` definition holds the index of its own source
      exactly when no such definition of several names was merged into a set that already had
      sources; and if the text passes both, the evaluator that follows levels, displacements
      and `with` chains gives the same value or error, and the same heap up to the erased
      names, as the evaluator that looks every variable up by name and every such definition up
      in its own source, and never reads outside a frame, an empty slot or an unwritten field. */
  lemma {:induction false} CompilationPreservesMeaning(
      s: Syn, names: seq<Symbol>, constants: seq<Value>, slots: seq<Addr>, fuel: nat)
    requires Once(SynBag(s)) && IsBase(names, constants, slots)
    requires Parse(s).Parsed?
    ensures var r := Parse(s);
      var bound := Bind(r.value, BaseEnv(names), NO_NOTES);
      && (bound.Bound? <==> Scoped(r.value, NameSet(names), false))
      && (Wf(r.value, 0, true) <==> !r.crossed)
      && (bound.Bound? && !r.crossed ==>
            SameMeaning(r.value, bound.notes, BaseHeap(names, constants, slots), fuel))
  {
    hide Parse, SameMeaning, Wf, Distinct, Bind;
    var r := Parse(s);
    ParseGuarantees(s);
    ParsedDistinct(s);
    BaseNames(names);
    BindExactlyWhenScoped(r.value, BaseEnv(names), NO_NOTES);
    if Bind(r.value, BaseEnv(names), NO_NOTES).Bound? && !r.crossed {
      NotesPreserveMeaning(r.value, names, constants, slots, fuel);
    }
  }

  /** What a program comes to under the evaluator that follows the notes. */
  ghost predicate ComesTo(e: Expr, notes: Notes, h: Heap, out: Out<Value>) {
    exists fuel: nat :: Eval(ByIndex(notes), e, h, 0, fuel) == out
  }

  /** What the rules of the language make of a program, up to the names in frames. */
  ghost predicate Means(e: Expr, h: Heap, out: Out<Value>) {
    exists h1 :: Erase(h1) == out.h && Derivable(Claim(Evaluate(e, h, 0), Out(out.r, h1)))
  }

  /** Compilation implements the language. A text that passes the parser and the pass, and has
      no crossed sources, comes to a value or an error under the evaluator that follows levels,
      displacements and `with` chains exactly when the rules of inference, which know only names,
      derive that value or error for it. */
  lemma {:induction false} CompilationImplementsLanguage(
      s: Syn, names: seq<Symbol>, constants: seq<Value>, slots: seq<Addr>, out: Out<Value>)
    requires Once(SynBag(s)) && IsBase(names, constants, slots)
    requires Parse(s).Parsed? && !Parse(s).crossed
    requires Bind(Parse(s).value, BaseEnv(names), NO_NOTES).Bound?
    requires !out.r.OutOfFuel?
    ensures var h := BaseHeap(names, constants, slots);
      var notes := Bind(Parse(s).value, BaseEnv(names), NO_NOTES).notes;
      ComesTo(Parse(s).value, notes, Erase(h), out) <==> Means(Parse(s).value, h, out)
  {
    hide Parse, Once, SynBag, Bind, Eval, Erase, Derivable, BaseHeap, BaseEnv;
    var e, h := Parse(s).value, BaseHeap(names, constants, slots);
    var notes := Bind(e, BaseEnv(names), NO_NOTES).notes;
    forall fuel: nat
      ensures SameMeaning(e, notes, h, fuel)
    {
      CompilationPreservesMeaning(s, names, constants, slots, fuel);
    }
    if ComesTo(e, notes, Erase(h), out) {
      var fuel: nat :| Eval(ByIndex(notes), e, Erase(h), 0, fuel) == out;
      assert SameMeaning(e, notes, h, fuel);
      var named := Eval(ByName, e, h, 0, fuel);
      SettledIsDerivable(e, h, 0, fuel);
      assert named == Out(out.r, named.h);
    }
    if Means(e, h, out) {
      var h1 :| Erase(h1) == out.h && Derivable(Claim(Evaluate(e, h, 0), Out(out.r, h1)));
      DerivableIsSettled(Claim(Evaluate(e, h, 0), Out(out.r, h1)));
      EvalIsDerivable(e, h, 0, Out(out.r, h1));
      var fuel: nat :| Eval(ByName, e, h, 0, fuel) == Out(out.r, h1);
      assert SameMeaning(e, notes, h, fuel);
      assert Eval(ByIndex(notes), e, Erase(h), 0, fuel) == out;
    }
  }

  /** The pass as it runs: on an AST as the parser makes it, with no fields written, it throws
      exactly on the programs the scoping rule rejects, and leaves every node of the others
      with the fields its static environment dictates. */
  method BindProgram(s: Syn, names: seq<Symbol>) returns (ast: Ast, thrown: Option<Symbol>)
    requires Once(SynBag(s)) && AllDistinct(names)
    requires Parse(s).Parsed?
    ensures fresh(ast)
    ensures thrown.None? <==> Scoped(Parse(s).value, NameSet(names), false)
    ensures thrown.None? ==> Noted(Parse(s).value, BaseEnv(names), ast.State())
  {
    var e := Parse(s).value;
    ParseGuarantees(s);
    ParsedDistinct(s);
    hide Parse, Distinct, Wf;
    ast := new Ast();
    BaseNames(names);
    SortSorted(BaseSlots(names));
    BindExactlyWhenScoped(e, BaseEnv(names), NO_NOTES);
    thrown := ast.BindVars(e, BaseEnv(names), 0);
    if thrown.None? {
      BindAnnotates(e, BaseEnv(names), NO_NOTES);
    }
  }

  /* Chains of `with` */

  /** How far up each enclosing `with` frame is, innermost first. */
  function WithDepths(env: StaticEnv, base: nat): seq<nat> {
    if env.NoEnv? then []
    else (if env.isWith.Some? then [base] else []) + WithDepths(env.up, base + 1)
  }

  /** The depths visited by starting at a `with` node that is `depth` frames up and
      following `parentWith`, `prevWith` frames at a time, for at most `steps` hops. */
  function ChainDepths(node: Option<NodeId>, depth: nat, notes: Notes, steps: nat): seq<nat>
    decreases steps
  {
    if node.None? || node.value !in notes.withs || steps == 0 then []
    else
      var info := notes.withs[node.value];
      [depth] + ChainDepths(info.parentWith, depth + info.prevWith, notes, steps - 1)
  }

  lemma {:induction false} NextWithDepth(env: StaticEnv, base: nat)
    ensures WithLevel(env).None? ==> WithDepths(env, base) == []
    ensures WithLevel(env).Some? ==>
      WithDepths(env, base) != [] && WithDepths(env, base)[0] == base + WithLevel(env).value
  {
    if env.StaticEnv? && env.isWith.None? {
      NextWithDepth(env.up, base + 1);
    }
  }

  /** The chain recorded for a variable without a lexical binding visits exactly the
      enclosing `with` frames, innermost to outermost, each once. */
  lemma {:induction false} ChainVisitsEnclosingWiths(env: StaticEnv, base: nat, notes: Notes, steps: nat)
    requires WithsFit(env, notes) && steps >= |WithDepths(env, base)|
    ensures ChainDepths(NearestWith(env), base + (if WithLevel(env).Some? then WithLevel(env).value else 0), notes,
      steps) == WithDepths(env, base)
    decreases env
  {
    if env.StaticEnv? {
      if env.isWith.Some? {
        var info := notes.withs[env.isWith.value];
        ChainVisitsEnclosingWiths(env.up, base + 1, notes, steps - 1);
        NextWithDepth(env.up, base + 1);
        assert info == WithInfoFor(env.up);
      } else {
        ChainVisitsEnclosingWiths(env.up, base + 1, notes, steps);
      }
    }
  }

  /** Depths of `with` frames strictly increase, so no frame is visited twice. */
  lemma {:induction false} WithDepthsIncrease(env: StaticEnv, base: nat)
    ensures forall i :: 0 <= i < |WithDepths(env, base)| ==> base <= WithDepths(env, base)[i]
    ensures forall i, j :: 0 <= i < j < |WithDepths(env, base)| ==> WithDepths(env, base)[i] < WithDepths(env, base)[j]
  {
    if env.StaticEnv? {
      WithDepthsIncrease(env.up, base + 1);
    }
  }

  /** `prevWith` of a node is the distance from its frame to the next enclosing `with` frame,
      and 0 exactly when there is none. */
  lemma {:induction false} PrevWithIsNextDepth(env: StaticEnv)
    ensures WithInfoFor(env).prevWith == 0 <==> WithDepths(env, 1) == []
    ensures WithInfoFor(env).prevWith > 0 ==> WithDepths(env, 1)[0] == WithInfoFor(env).prevWith
  {
    NextWithDepth(env, 1);
  }

  lemma {:induction false} DefTaskEnv(e: Expr, inner: StaticEnv, env: StaticEnv, i: nat)
    requires (e.Attrs? || e.Let?) && i < |DefTasks(e.defs, inner, env, SourceEnv(inner), |e.from|)|
    ensures DefTasks(e.defs, inner, env, SourceEnv(inner), |e.from|)[i].env in {inner, env, SourceEnv(inner)}
  {
  }

  lemma {:induction false} AttrsTaskEnv(e: Expr, env: StaticEnv, slots: nat, i: nat)
    requires e.Attrs? && i < |Tasks(e, env, slots)|
    ensures var inner := if e.recursive then RecEnv(e.defs, env) else env;
      Tasks(e, env, slots)[i].env in {inner, env, SourceEnv(inner)}
  {
    var inner := if e.recursive then RecEnv(e.defs, env) else env;
    hide RecEnv, SourceEnv, DynTasks, DefTasks, ExprTasks;
    var n, m := |ExprTasks(e.from, inner, 0)|, |DefTasks(e.defs, inner, env, SourceEnv(inner), |e.from|)|;
    if n <= i < n + m {
      DefTaskEnv(e, inner, env, i - n);
    }
  }

  lemma {:induction false} LetTaskEnv(e: Expr, env: StaticEnv, slots: nat, i: nat)
    requires e.Let? && i < |Tasks(e, env, slots)|
    ensures var inner := RecEnv(e.defs, env); Tasks(e, env, slots)[i].env in {inner, env, SourceEnv(inner)}
  {
    var inner := RecEnv(e.defs, env);
    hide RecEnv, SourceEnv, DefTasks, ExprTasks;
    var n, m := |ExprTasks(e.from, inner, 0)|, |DefTasks(e.defs, inner, env, SourceEnv(inner), |e.from|)|;
    if n <= i < n + m {
      DefTaskEnv(e, inner, env, i - n);
    }
  }

  lemma {:induction false} LambdaTaskEnv(e: Expr, env: StaticEnv, slots: nat, i: nat)
    requires e.Lambda? && i < |Tasks(e, env, slots)|
    ensures Tasks(e, env, slots)[i].env == LambdaEnv(e.arg, e.formals, env)
  {
    hide LambdaEnv, DefaultTasks;
    var ts := DefaultTasks(FormalsOf(e.formals), LambdaEnv(e.arg, e.formals, env));
    assert i < |ts| ==> ts[i] in ts;
  }

  /** The frames a node makes are no `with` frames, except that of a `with`. */
  lemma {:induction false} FramesFit(env: StaticEnv, defs: seq<AttrDef>, notes: Notes)
    requires WithsFit(env, notes)
    ensures WithsFit(RecEnv(defs, env), notes)
    ensures WithsFit(SourceEnv(env), notes) && WithsFit(SourceEnv(RecEnv(defs, env)), notes)
  {
    assert WithsFit(RecEnv(defs, env), notes);
  }

  /** The children of a node stand under `with` nodes with the right fields if the node does
      and has its own. */
  lemma {:induction false} WithsFitBelow(e: Expr, env: StaticEnv, notes: Notes, i: nat)
    requires NodeNoted(e, env, notes) && WithsFit(env, notes) && i < |Tasks(e, env, 0)|
    ensures WithsFit(Tasks(e, env, 0)[i].env, notes)
  {
    match e {
      case Attrs(_, _, _, _) =>
        hide WithsFit, Tasks, RecEnv, SourceEnv;
        AttrsTaskEnv(e, env, 0, i);
        FramesFit(env, e.defs, notes);
      case Let(_, _, _) =>
        hide WithsFit, Tasks, RecEnv, SourceEnv;
        LetTaskEnv(e, env, 0, i);
        FramesFit(env, e.defs, notes);
      case Lambda(_, _, _) =>
        hide Tasks;
        LambdaTaskEnv(e, env, 0, i);
      case _ =>
    }
  }

  /** Every variable without a lexical binding, anywhere in the expression, is noted with the
      first of its enclosing `with` frames, and the chain from there visits exactly those
      frames, innermost first. */
  ghost predicate ChainsRight(e: Expr, env: StaticEnv, notes: Notes)
    decreases e
  {
    && (e.Var? && Lexical(e.name, env).None? ==>
          && e.id in notes.vars && WithDepths(env, 0) != []
          && notes.vars[e.id].fromWith.Some? && notes.vars[e.id].level == WithDepths(env, 0)[0]
          && forall steps: nat :: steps >= |WithDepths(env, 0)| ==>
               ChainDepths(notes.vars[e.id].fromWith, notes.vars[e.id].level, notes, steps) == WithDepths(env, 0))
    && forall i :: 0 <= i < |Tasks(e, env, 0)| ==> ChainsRight(Tasks(e, env, 0)[i].e, Tasks(e, env, 0)[i].env, notes)
  }

  lemma {:induction false} NotedChains(e: Expr, env: StaticEnv, notes: Notes)
    requires Noted(e, env, notes) && WithsFit(env, notes)
    ensures ChainsRight(e, env, notes)
    decreases e
  {
    if e.Var? {
      if Lexical(e.name, env).None? {
        NextWithDepth(env, 0);
        forall steps: nat | steps >= |WithDepths(env, 0)|
          ensures ChainDepths(notes.vars[e.id].fromWith, notes.vars[e.id].level, notes, steps) == WithDepths(env, 0)
        {
          ChainVisitsEnclosingWiths(env, 0, notes, steps);
        }
      }
    } else {
      var ts := Tasks(e, env, 0);
      forall i | 0 <= i < |ts|
        ensures ChainsRight(ts[i].e, ts[i].env, notes)
      {
        assert ts[i] in ts;
        WithsFitBelow(e, env, notes, i);
        NotedChains(ts[i].e, ts[i].env, notes);
      }
    }
  }

  /** After a successful pass over a program, every variable that no frame binds looks through
      exactly its enclosing `with` frames, from the innermost out, each once. */
  lemma {:induction false} PassMakesChains(e: Expr, names: seq<Symbol>)
    requires Distinct(e)
    requires Bind(e, BaseEnv(names), NO_NOTES).Bound?
    ensures ChainsRight(e, BaseEnv(names), Bind(e, BaseEnv(names), NO_NOTES).notes)
  {
    BindAnnotates(e, BaseEnv(names), NO_NOTES);
    NotedChains(e, BaseEnv(names), Bind(e, BaseEnv(names), NO_NOTES).notes);
  }
}
