/** The `bindVars` pass: every variable is resolved once, to a level and a
    displacement or to a chain of `with` frames. */
module Binder {
  import opened Common
  import opened StaticVars
  import opened Syntax

  /** The fields `bindVars` writes into an `ExprVar`. */
  datatype VarInfo = VarInfo(fromWith: Option<NodeId>, level: nat, displ: nat)

  /** The fields `bindVars` writes into an `ExprWith`. */
  datatype WithInfo = WithInfo(prevWith: nat, parentWith: Option<NodeId>)

  datatype Notes = Notes(vars: map<NodeId, VarInfo>, withs: map<NodeId, WithInfo>)

  datatype BindResult = Bound(notes: Notes) | Undefined(name: Symbol)

  /* Looking a name up in the static environment */

  datatype LexSlot = LexSlot(level: nat, displ: nat)

  /** The innermost frame that binds the name; `with` frames bind none. */
  function Lexical(name: Symbol, env: StaticEnv): Option<LexSlot> {
    if env.NoEnv? then
      None
    else
      var here := if env.isWith.None? then FindName(env.vars, name) else None;
      if here.Some? then
        Some(LexSlot(0, here.value))
      else
        var rest := Lexical(name, env.up);
        if rest.Some? then Some(LexSlot(rest.value.level + 1, rest.value.displ)) else None
  }

  /** Distance to the innermost `with` frame. */
  function WithLevel(env: StaticEnv): Option<nat> {
    if env.NoEnv? then None
    else if env.isWith.Some? then Some(0)
    else
      var rest := WithLevel(env.up);
      if rest.Some? then Some(rest.value + 1) else None
  }

  function NearestWith(env: StaticEnv): (r: Option<NodeId>)
    ensures r.Some? <==> WithLevel(env).Some?
  {
    if env.NoEnv? then None
    else if env.isWith.Some? then env.isWith
    else NearestWith(env.up)
  }

  function Resolve(name: Symbol, env: StaticEnv): Option<VarInfo> {
    var lex := Lexical(name, env);
    if lex.Some? then Some(VarInfo(None, lex.value.level, lex.value.displ))
    else if WithLevel(env).Some? then Some(VarInfo(NearestWith(env), WithLevel(env).value, 0))
    else None
  }

  function WithInfoFor(env: StaticEnv): WithInfo {
    WithInfo(if WithLevel(env).Some? then WithLevel(env).value + 1 else 0, NearestWith(env))
  }

  /* The pass as a function: a node's own fields first, then its children in order */

  function Bind(e: Expr, env: StaticEnv, notes: Notes): BindResult
    decreases e
  {
    match e
    case Var(id, name) =>
      var info := Resolve(name, env);
      if info.Some? then Bound(notes.(vars := notes.vars[id := info.value])) else Undefined(name)
    case With(id, _, _) =>
      BindAll(e, Tasks(e, env, 0), notes.(withs := notes.withs[id := WithInfoFor(env)]))
    case _ =>
      BindAll(e, Tasks(e, env, 0), notes)
  }

  function BindAll(parent: Expr, ts: seq<Task>, notes: Notes): BindResult
    requires forall t :: t in ts ==> t.e < parent
    decreases parent, |ts|
  {
    if ts == [] then
      Bound(notes)
    else
      var r := Bind(ts[0].e, ts[0].env, notes);
      if r.Undefined? then r else BindAll(parent, ts[1..], r.notes)
  }

  lemma {:induction false} BindAllAppend(parent: Expr, ts: seq<Task>, us: seq<Task>, notes: Notes)
    requires forall t :: t in ts + us ==> t.e < parent
    ensures forall t :: t in ts || t in us ==> t.e < parent
    ensures BindAll(parent, ts + us, notes) ==
            var r := BindAll(parent, ts, notes);
            if r.Undefined? then r else BindAll(parent, us, r.notes)
    decreases |ts|
  {
    assert forall t :: t in ts || t in us ==> t in ts + us;
    if ts == [] {
      assert ts + us == us;
    } else {
      assert (ts + us)[1..] == ts[1..] + us;
      var r := Bind(ts[0].e, ts[0].env, notes);
      if r.Bound? {
        BindAllAppend(parent, ts[1..], us, r.notes);
      }
    }
  }

  /* When the pass succeeds: the language's own scoping rule, by name */

  function DefNames(defs: seq<AttrDef>): set<Symbol> {
    set d | d in defs :: d.name
  }

  function LambdaNames(arg: Option<Symbol>, formals: Option<Formals>): set<Symbol> {
    (if arg.Some? then {arg.value} else {}) + set f | f in FormalsOf(formals) :: f.name
  }

  /** Every variable is bound by an enclosing binder or stands under a `with`. */
  ghost predicate Scoped(e: Expr, names: set<Symbol>, inWith: bool)
    decreases e, 1
  {
    match e
    case Int(_) => true
    case Str(_) => true
    case Null => true
    case InheritFrom(_, _) => true
    case Var(_, name) => name in names || inWith
    case Select(s, _, def) =>
      Scoped(s, names, inWith) && (def.Some? ==> Scoped(def.value, names, inWith))
    case Attrs(recursive, defs, from, dyn) =>
      var inner := if recursive then names + DefNames(defs) else names;
      ExprsScoped(from, inner, inWith) && DefsScoped(e, names, inner, inWith) && DynsScoped(e, inner, inWith)
    case List(elems) => ExprsScoped(elems, names, inWith)
    case Lambda(arg, formals, body) =>
      var inner := names + LambdaNames(arg, formals);
      DefaultsScoped(e, inner, inWith) && Scoped(body, inner, inWith)
    case Call(fun, args) => Scoped(fun, names, inWith) && ExprsScoped(args, names, inWith)
    case Let(defs, from, body) =>
      var inner := names + DefNames(defs);
      ExprsScoped(from, inner, inWith) && DefsScoped(e, names, inner, inWith) && Scoped(body, inner, inWith)
    case With(_, attrs, body) => Scoped(attrs, names, inWith) && Scoped(body, names, true)
    case If(cond, thn, els) => Scoped(cond, names, inWith) && Scoped(thn, names, inWith) && Scoped(els, names, inWith)
  }

  ghost predicate ExprsScoped(es: seq<Expr>, names: set<Symbol>, inWith: bool)
    decreases es
  {
    forall x :: x in es ==> Scoped(x, names, inWith)
  }

  /** `inherit x;` takes `x` from outside the set; everything else sees the set's own names. */
  ghost predicate DefsScoped(e: Expr, outer: set<Symbol>, inner: set<Symbol>, inWith: bool)
    requires e.Attrs? || e.Let?
    decreases e, 0
  {
    forall i :: 0 <= i < |e.defs| ==> Scoped(e.defs[i].e, if e.defs[i].kind.Inherited? then outer else inner, inWith)
  }

  ghost predicate DynsScoped(e: Expr, names: set<Symbol>, inWith: bool)
    requires e.Attrs?
    decreases e, 0
  {
    forall i :: 0 <= i < |e.dyn| ==>
      Scoped(e.dyn[i].nameExpr, names, inWith) && Scoped(e.dyn[i].valueExpr, names, inWith)
  }

  ghost predicate DefaultsScoped(e: Expr, names: set<Symbol>, inWith: bool)
    requires e.Lambda?
    decreases e, 0
  {
    e.formals.Some? ==>
      var fs := e.formals.value.formals;
      forall i :: 0 <= i < |fs| && fs[i].def.Some? ==> Scoped(fs[i].def.value, names, inWith)
  }

  /** The names bound by the lexical frames of a static environment. */
  ghost function BoundNames(env: StaticEnv): set<Symbol> {
    if env.NoEnv? then {}
    else (if env.isWith.None? then set v | v in env.vars :: v.name else {}) + BoundNames(env.up)
  }

  ghost predicate HasWith(env: StaticEnv) {
    env.StaticEnv? && (env.isWith.Some? || HasWith(env.up))
  }

  lemma {:induction false} LexicalExact(name: Symbol, env: StaticEnv)
    ensures Lexical(name, env).Some? <==> name in BoundNames(env)
    ensures WithLevel(env).Some? <==> HasWith(env)
  {
    if env.StaticEnv? {
      LexicalExact(name, env.up);
      if env.isWith.None? {
        var here := FindName(env.vars, name);
        if here.Some? {
          assert VarSlot(name, here.value) in env.vars;
        }
      }
    }
  }

  ghost predicate AllBind(ts: seq<Task>) {
    forall t, notes {:trigger Bind(t.e, t.env, notes)} :: t in ts ==> Bind(t.e, t.env, notes).Bound?
  }

  /** Success of the pass does not depend on what has been written so far. */
  lemma {:induction false} BindAllSucceeds(parent: Expr, ts: seq<Task>, notes: Notes)
    requires forall t :: t in ts ==> t.e < parent
    requires forall t :: t in ts ==> (forall n, m :: Bind(t.e, t.env, n).Bound? <==> Bind(t.e, t.env, m).Bound?)
    ensures BindAll(parent, ts, notes).Bound? <==> AllBind(ts)
    decreases |ts|
  {
    if ts != [] {
      var r := Bind(ts[0].e, ts[0].env, notes);
      assert ts[0] in ts;
      if r.Bound? {
        BindAllSucceeds(parent, ts[1..], r.notes);
        assert forall t :: t in ts <==> t == ts[0] || t in ts[1..];
      }
    }
  }

  /** The scoping rule for the children of a node, in `bindVars` terms. */
  ghost predicate TasksScoped(ts: seq<Task>) {
    forall t :: t in ts ==> Scoped(t.e, BoundNames(t.env), HasWith(t.env))
  }

  lemma {:induction false} InSorted(vars: seq<VarSlot>, v: VarSlot)
    ensures v in SortVars(vars) <==> v in vars
  {
    assert v in SortVars(vars) <==> v in multiset(SortVars(vars));
    assert v in multiset(vars) <==> v in vars;
  }

  lemma {:induction false} RecNames(defs: seq<AttrDef>, env: StaticEnv)
    ensures BoundNames(RecEnv(defs, env)) == BoundNames(env) + DefNames(defs)
    ensures HasWith(RecEnv(defs, env)) == HasWith(env)
    ensures BoundNames(SourceEnv(env)) == BoundNames(env)
    ensures HasWith(SourceEnv(env)) == HasWith(env)
  {
    var vars := DefVars(defs);
    forall x | x in DefNames(defs)
      ensures x in BoundNames(RecEnv(defs, env))
    {
      var d :| d in defs && d.name == x;
      var i :| 0 <= i < |defs| && defs[i] == d;
      assert vars[i] in vars;
    }
  }

  lemma {:induction false} LambdaSlotNames(arg: Option<Symbol>, formals: Option<Formals>, x: Symbol)
    ensures x in LambdaNames(arg, formals) <==> exists v :: v in LambdaSlots(arg, formals) && v.name == x
  {
    var fs, slots := FormalsOf(formals), LambdaSlots(arg, formals);
    var fv := FormalVars(fs, |ArgVars(arg)|);
    if x in LambdaNames(arg, formals) {
      if arg.Some? && x == arg.value {
        assert slots[0] == VarSlot(x, 0);
      } else {
        var f :| f in fs && f.name == x;
        var i :| 0 <= i < |fs| && fs[i] == f;
        assert slots[|ArgVars(arg)| + i] == fv[i];
      }
    }
    if v :| v in slots && v.name == x && v !in ArgVars(arg) {
      var i :| 0 <= i < |fv| && fv[i] == v;
      assert fs[i] in fs;
    }
  }

  lemma {:induction false} LambdaNamesBound(arg: Option<Symbol>, formals: Option<Formals>, env: StaticEnv)
    ensures BoundNames(LambdaEnv(arg, formals, env)) == BoundNames(env) + LambdaNames(arg, formals)
    ensures HasWith(LambdaEnv(arg, formals, env)) == HasWith(env)
  {
    SortedLambdaNames(arg, formals);
  }

  lemma {:induction false} SortedLambdaNames(arg: Option<Symbol>, formals: Option<Formals>)
    ensures (set v | v in SortVars(LambdaSlots(arg, formals)) :: v.name) == LambdaNames(arg, formals)
  {
    hide SortVars, LambdaSlots, LambdaNames;
    var slots := LambdaSlots(arg, formals);
    forall x
      ensures x in (set v | v in SortVars(slots) :: v.name) <==> x in LambdaNames(arg, formals)
    {
      LambdaSlotNames(arg, formals, x);
      if v :| v in slots && v.name == x { InSorted(slots, v); }
      if v :| v in SortVars(slots) && v.name == x { InSorted(slots, v); }
    }
  }

  lemma {:induction false} ScopedSplit(ts: seq<Task>, us: seq<Task>)
    ensures TasksScoped(ts + us) <==> TasksScoped(ts) && TasksScoped(us)
  {
    assert forall t :: t in ts + us <==> t in ts || t in us;
  }

  lemma {:induction false} ScopedOne(t: Task)
    ensures TasksScoped([t]) <==> Scoped(t.e, BoundNames(t.env), HasWith(t.env))
  {
    assert t in [t];
  }

  lemma {:induction false} ScopedExprs(es: seq<Expr>, env: StaticEnv)
    ensures TasksScoped(ExprTasks(es, env, 0)) <==> ExprsScoped(es, BoundNames(env), HasWith(env))
  {
    var ts := ExprTasks(es, env, 0);
    if ExprsScoped(es, BoundNames(env), HasWith(env)) {
      forall t | t in ts
        ensures Scoped(t.e, BoundNames(t.env), HasWith(t.env))
      {
        var i :| 0 <= i < |ts| && ts[i] == t;
        assert es[i] in es;
      }
    } else {
      var x :| x in es && !Scoped(x, BoundNames(env), HasWith(env));
      var i :| 0 <= i < |es| && es[i] == x;
      assert ts[i] in ts;
    }
  }

  lemma {:induction false} DefTaskNames(d: AttrDef, inner: StaticEnv, env: StaticEnv, slots: nat)
    requires HasWith(inner) == HasWith(env)
    ensures var t := DefTask(d, inner, env, SourceEnv(inner), slots);
      && t.e == d.e
      && BoundNames(t.env) == (if d.kind.Inherited? then BoundNames(env) else BoundNames(inner))
      && HasWith(t.env) == HasWith(env)
  {
    RecNames([], inner);
  }

  lemma {:induction false} ScopedDefs(e: Expr, inner: StaticEnv, env: StaticEnv, slots: nat)
    requires e.Attrs? || e.Let?
    requires HasWith(inner) == HasWith(env)
    ensures TasksScoped(DefTasks(e.defs, inner, env, SourceEnv(inner), slots)) <==>
            DefsScoped(e, BoundNames(env), BoundNames(inner), HasWith(env))
  {
    hide BoundNames, HasWith, SourceEnv, DefTask;
    var ts := DefTasks(e.defs, inner, env, SourceEnv(inner), slots);
    if DefsScoped(e, BoundNames(env), BoundNames(inner), HasWith(env)) {
      forall t | t in ts
        ensures Scoped(t.e, BoundNames(t.env), HasWith(t.env))
      {
        var i :| 0 <= i < |ts| && ts[i] == t;
        DefTaskNames(e.defs[i], inner, env, slots);
      }
    } else {
      var i :| 0 <= i < |e.defs| &&
        !Scoped(e.defs[i].e, if e.defs[i].kind.Inherited? then BoundNames(env) else BoundNames(inner), HasWith(env));
      DefTaskNames(e.defs[i], inner, env, slots);
      assert ts[i] in ts;
    }
  }

  lemma {:induction false} ScopedDyns(e: Expr, env: StaticEnv)
    requires e.Attrs?
    ensures TasksScoped(DynTasks(e.dyn, env)) <==> DynsScoped(e, BoundNames(env), HasWith(env))
  {
    var dyn := e.dyn;
    var ts := DynTasks(dyn, env);
    if DynsScoped(e, BoundNames(env), HasWith(env)) {
      forall t | t in ts
        ensures Scoped(t.e, BoundNames(t.env), HasWith(t.env))
      {
        var i :| 0 <= i < |ts| && ts[i] == t;
        assert t == ts[2 * (i / 2)] || t == ts[2 * (i / 2) + 1];
      }
    } else {
      var i :| 0 <= i < |dyn| &&
        !(Scoped(dyn[i].nameExpr, BoundNames(env), HasWith(env)) &&
          Scoped(dyn[i].valueExpr, BoundNames(env), HasWith(env)));
      assert ts[2 * i] in ts && ts[2 * i + 1] in ts;
    }
  }

  lemma {:induction false} ScopedDefaults(e: Expr, env: StaticEnv)
    requires e.Lambda?
    ensures TasksScoped(DefaultTasks(FormalsOf(e.formals), env)) <==> DefaultsScoped(e, BoundNames(env), HasWith(env))
  {
    var formals := FormalsOf(e.formals);
    var ts := DefaultTasks(formals, env);
    if DefaultsScoped(e, BoundNames(env), HasWith(env)) {
      forall t | t in ts
        ensures Scoped(t.e, BoundNames(t.env), HasWith(t.env))
      {
        var i :| 0 <= i < |formals| && formals[i].def.Some? && t == Task(formals[i].def.value, env, 0);
      }
    } else {
      var i :| 0 <= i < |formals| && formals[i].def.Some? &&
        !Scoped(formals[i].def.value, BoundNames(env), HasWith(env));
      assert Task(formals[i].def.value, env, 0) in ts;
    }
  }

  lemma {:induction false} ScopedAttrs(e: Expr, env: StaticEnv)
    requires e.Attrs?
    ensures Scoped(e, BoundNames(env), HasWith(env)) <==> TasksScoped(Tasks(e, env, 0))
  {
    var inner := if e.recursive then RecEnv(e.defs, env) else env;
    var a, c := ExprTasks(e.from, inner, 0), DynTasks(e.dyn, inner);
    var b := DefTasks(e.defs, inner, env, SourceEnv(inner), |e.from|);
    hide TasksScoped, ExprsScoped, DefsScoped, DynsScoped, BoundNames, HasWith, RecEnv, DefNames, ExprTasks, DefTasks;
    RecNames(e.defs, env);
    ScopedExprs(e.from, inner);
    ScopedDefs(e, inner, env, |e.from|);
    ScopedDyns(e, inner);
    ScopedSplit(a, b);
    ScopedSplit(a + b, c);
  }

  /** The rule for `let` and lambdas, spelled out for one set of names. */
  lemma {:induction false} FrameScoped(e: Expr, names: set<Symbol>, inWith: bool)
    ensures e.Let? ==> var inner := names + DefNames(e.defs);
      Scoped(e, names, inWith) <==>
        ExprsScoped(e.from, inner, inWith) && DefsScoped(e, names, inner, inWith) && Scoped(e.body, inner, inWith)
    ensures e.Lambda? ==> var inner := names + LambdaNames(e.arg, e.formals);
      Scoped(e, names, inWith) <==> DefaultsScoped(e, inner, inWith) && Scoped(e.body, inner, inWith)
  {
    hide ExprsScoped, DefsScoped, DefaultsScoped, DefNames, LambdaNames;
  }

  lemma {:induction false} ScopedLet(e: Expr, env: StaticEnv)
    requires e.Let?
    ensures Scoped(e, BoundNames(env), HasWith(env)) <==> TasksScoped(Tasks(e, env, 0))
  {
    var inner := RecEnv(e.defs, env);
    var a, c := ExprTasks(e.from, inner, 0), [Task(e.body, inner, 0)];
    var b := DefTasks(e.defs, inner, env, SourceEnv(inner), |e.from|);
    assert Tasks(e, env, 0) == a + b + c;
    hide *;
    FrameScoped(e, BoundNames(env), HasWith(env));
    RecNames(e.defs, env);
    ScopedExprs(e.from, inner);
    ScopedDefs(e, inner, env, |e.from|);
    ScopedOne(Task(e.body, inner, 0));
    ScopedSplit(a, b);
    ScopedSplit(a + b, c);
  }

  lemma {:induction false} ScopedLambda(e: Expr, env: StaticEnv)
    requires e.Lambda?
    ensures Scoped(e, BoundNames(env), HasWith(env)) <==> TasksScoped(Tasks(e, env, 0))
  {
    var inner := LambdaEnv(e.arg, e.formals, env);
    var ts, body := DefaultTasks(FormalsOf(e.formals), inner), Task(e.body, inner, 0);
    assert Tasks(e, env, 0) == ts + [body];
    hide *;
    FrameScoped(e, BoundNames(env), HasWith(env));
    LambdaNamesBound(e.arg, e.formals, env);
    ScopedDefaults(e, inner);
    ScopedOne(body);
    ScopedSplit(ts, [body]);
  }

  lemma {:induction false} ScopedWith(e: Expr, env: StaticEnv)
    requires e.With?
    ensures Scoped(e, BoundNames(env), HasWith(env)) <==> TasksScoped(Tasks(e, env, 0))
  {
    var inner := StaticEnv(Some(e.id), [], env);
    var attrs, body := Task(e.attrs, env, 0), Task(e.body, inner, 0);
    assert BoundNames(inner) == BoundNames(env);
    assert Tasks(e, env, 0) == [attrs] + [body];
    hide TasksScoped;
    ScopedOne(attrs);
    ScopedOne(body);
    ScopedSplit([attrs], [body]);
  }

  /** The nodes that bind nothing. */
  lemma {:induction false} ScopedPlain(e: Expr, env: StaticEnv)
    requires !e.Var? && !e.Attrs? && !e.Let? && !e.Lambda? && !e.With?
    ensures Scoped(e, BoundNames(env), HasWith(env)) <==> TasksScoped(Tasks(e, env, 0))
  {
    hide BoundNames, HasWith;
    match e
    case List(elems) =>
      ScopedExprs(elems, env);
    case Call(fun, args) =>
      ScopedExprs(args, env);
      ScopedOne(Task(fun, env, 0));
      ScopedSplit([Task(fun, env, 0)], ExprTasks(args, env, 0));
    case If(cond, thn, els) =>
      ScopedExprs([cond, thn, els], env);
      assert Tasks(e, env, 0) == ExprTasks([cond, thn, els], env, 0);
      assert forall x :: x in [cond, thn, els] <==> x == cond || x == thn || x == els;
    case Select(s, _, def) =>
      ScopedOne(Task(s, env, 0));
      ScopedSplit([Task(s, env, 0)], OptTask(def, env, 0));
      if def.Some? {
        ScopedOne(Task(def.value, env, 0));
      }
    case _ =>
  }

  /** Each child of a node satisfies the scoping rule in the environment the pass
      gives it exactly when the node does in its own. */
  lemma {:induction false} ScopedIsTasksScoped(e: Expr, env: StaticEnv)
    requires !e.Var?
    ensures Scoped(e, BoundNames(env), HasWith(env)) <==> TasksScoped(Tasks(e, env, 0))
  {
    hide Scoped, TasksScoped, Tasks, BoundNames, HasWith;
    match e
    case Attrs(_, _, _, _) => ScopedAttrs(e, env);
    case Let(_, _, _) => ScopedLet(e, env);
    case Lambda(_, _, _) => ScopedLambda(e, env);
    case With(_, _, _) => ScopedWith(e, env);
    case _ => ScopedPlain(e, env);
  }

  /** `bindVars` reports an undefined variable exactly when some variable has no
      lexical binding and no enclosing `with`. */
  lemma {:induction false} BindExactlyWhenScoped(e: Expr, env: StaticEnv, notes: Notes)
    ensures Bind(e, env, notes).Bound? <==> Scoped(e, BoundNames(env), HasWith(env))
    decreases e
  {
    if e.Var? {
      LexicalExact(e.name, env);
    } else {
      var ts := Tasks(e, env, 0);
      forall t, n: Notes | t in ts
        ensures Bind(t.e, t.env, n).Bound? <==> Scoped(t.e, BoundNames(t.env), HasWith(t.env))
      {
        BindExactlyWhenScoped(t.e, t.env, n);
      }
      BindAllSucceeds(e, ts, if e.With? then notes.(withs := notes.withs[e.id := WithInfoFor(env)]) else notes);
      forall t | t in ts && AllBind(ts)
        ensures Scoped(t.e, BoundNames(t.env), HasWith(t.env))
      {
        assert Bind(t.e, t.env, notes).Bound?;
      }
      ScopedIsTasksScoped(e, env);
    }
  }
}
