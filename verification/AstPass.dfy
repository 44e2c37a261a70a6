/** `bindVars` as the source runs it: methods that walk static environments with
    loops and write the fields of AST nodes in place. */
module AstPass {
  import opened Common
  import opened StaticVars
  import opened Syntax
  import opened Binder
  import opened Annotation

  function Deepen(r: Option<LexSlot>, n: nat): Option<LexSlot> {
    if r.Some? then Some(LexSlot(r.value.level + n, r.value.displ)) else None
  }

  function DeepenLevel(r: Option<nat>, n: nat): Option<nat> {
    if r.Some? then Some(r.value + n) else None
  }

  /** The distance to the innermost `with` frame, counting from `base`. */
  method NearestWithLevel(env: StaticEnv, base: nat) returns (level: Option<nat>)
    ensures level == DeepenLevel(WithLevel(env), base)
  {
    var cur, n := env, base;
    while cur.StaticEnv?
      invariant n >= base
      invariant DeepenLevel(WithLevel(env), base) == DeepenLevel(WithLevel(cur), n)
      decreases cur
    {
      if cur.isWith.Some? {
        return Some(n);
      }
      cur, n := cur.up, n + 1;
    }
    level := None;
  }

  method NearestWithNode(env: StaticEnv) returns (node: Option<NodeId>)
    ensures node == NearestWith(env)
  {
    var cur := env;
    node := None;
    while cur.StaticEnv? && node.None?
      invariant node.None? ==> NearestWith(env) == NearestWith(cur)
      invariant node.Some? ==> NearestWith(env) == node
      decreases cur
    {
      node := cur.isWith;
      cur := cur.up;
    }
  }

  method BuildDefVars(defs: seq<AttrDef>) returns (vars: seq<VarSlot>)
    ensures vars == DefVars(defs)
  {
    vars := [];
    for displ := 0 to |defs|
      invariant vars == DefVars(defs)[..displ]
    {
      vars := vars + [VarSlot(defs[displ].name, displ)];
    }
  }

  method BuildLambdaVars(arg: Option<Symbol>, formals: Option<Formals>) returns (vars: seq<VarSlot>)
    requires WfFormals(arg, formals)
    ensures vars == SortVars(LambdaSlots(arg, formals))
  {
    vars := ArgVars(arg);
    if formals.Some? {
      var fs := formals.value.formals;
      for i := 0 to |fs|
        invariant vars == ArgVars(arg) + FormalVars(fs, |ArgVars(arg)|)[..i]
      {
        vars := vars + [VarSlot(fs[i].name, |vars|)];
      }
      assert FormalVars(fs, |ArgVars(arg)|)[..|fs|] == FormalVars(fs, |ArgVars(arg)|);
      vars := SortVars(vars);
    } else {
      assert LambdaSlots(arg, formals) == vars == [vars[0]];
      assert vars[1..] == [] && SortVars(vars) == InsertVar(vars[0], []);
    }
  }

  /** The AST nodes of a program; the two maps hold the fields of its `ExprVar`
      and `ExprWith` nodes. */
  class Ast {
    var vars: map<NodeId, VarInfo>
    var withs: map<NodeId, WithInfo>

    constructor ()
      ensures State() == Notes(map[], map[])
    {
      vars, withs := map[], map[];
    }

    function State(): Notes
      reads this
    {
      Notes(vars, withs)
    }

    /** What a call of the pass did: it wrote what the specification says, or it
        threw the undefined-variable error. */
    ghost predicate Outcome(spec: BindResult, thrown: Option<Symbol>)
      reads this
    {
      match spec
      case Bound(notes) => thrown.None? && State() == notes
      case Undefined(name) => thrown == Some(name)
    }

    method BindVar(id: NodeId, name: Symbol, env: StaticEnv) returns (thrown: Option<Symbol>)
      requires SortedEnv(env)
      modifies this
      ensures Outcome(Bind(Var(id, name), env, old(State())), thrown)
    {
      var withLevel: int := -1;
      var curEnv, level := env, 0;
      while curEnv.StaticEnv?
        invariant SortedEnv(curEnv)
        invariant State() == old(State())
        invariant Lexical(name, env) == Deepen(Lexical(name, curEnv), level)
        invariant withLevel == -1 ==> WithLevel(env) == DeepenLevel(WithLevel(curEnv), level)
        invariant withLevel != -1 ==> withLevel >= 0 && WithLevel(env) == Some(withLevel)
        decreases curEnv
      {
        if curEnv.isWith.Some? {
          if withLevel == -1 {
            withLevel := level;
          }
        } else {
          var i := FindVar(curEnv.vars, name);
          if i.Some? {
            vars := vars[id := VarInfo(None, level, curEnv.vars[i.value].displ)];
            return None;
          }
        }
        curEnv, level := curEnv.up, level + 1;
      }
      if withLevel == -1 {
        return Some(name);
      }
      var fromWith := NearestWithNode(env);
      vars := vars[id := VarInfo(fromWith, withLevel, 0)];
      thrown := None;
    }

    method BindVars(e: Expr, env: StaticEnv, ghost slots: nat) returns (thrown: Option<Symbol>)
      requires SortedEnv(env) && Wf(e, slots, false)
      modifies this
      ensures Outcome(Bind(e, env, old(State())), thrown)
      decreases e, 3
    {
      PlainTasks(e, env, slots);
      LeafBinds(e, env, State());
      hide Bind, Wf, Tasks, ExprTasks, SortedEnv;
      match e
      case Var(id, name) => thrown := BindVar(id, name, env);
      case List(elems) => thrown := BindChildren(e, elems, env, slots);
      case Select(s, _, def) => thrown := BindChildren(e, [s] + (if def.Some? then [def.value] else []), env, slots);
      case Call(fun, args) => thrown := BindChildren(e, [fun] + args, env, slots);
      case If(cond, thn, els) => thrown := BindChildren(e, [cond, thn, els], env, slots);
      case With(_, _, _) => thrown := BindWith(e, env, slots);
      case Lambda(_, _, _) => thrown := BindLambda(e, env, slots);
      case Let(_, _, _) => thrown := BindLet(e, env, slots);
      case Attrs(_, _, _, _) => thrown := BindAttrs(e, env, slots);
      case _ => thrown := None;
    }

    /** The nodes whose children all live in the node's own scope. */
    method BindChildren(ghost e: Expr, es: seq<Expr>, env: StaticEnv, ghost slots: nat) returns (thrown: Option<Symbol>)
      requires SortedEnv(env) && Wf(e, slots, false)
      requires e.List? || e.Select? || e.Call? || e.If?
      requires forall i :: 0 <= i < |es| ==> es[i] < e
      requires ExprTasks(es, env, slots) == Tasks(e, env, slots)
      modifies this
      ensures Outcome(Bind(e, env, old(State())), thrown)
      decreases e, 2
    {
      WfTasks(e, env, slots);
      BindIgnoresSlots(e, env, slots);
      assert forall i :: 0 <= i < |es| ==> ExprTasks(es, env, slots)[i] == Task(es[i], env, slots);
      thrown := BindExprs(e, es, env, slots);
    }

    method BindLet(e: Expr, env: StaticEnv, ghost slots: nat) returns (thrown: Option<Symbol>)
      requires e.Let? && SortedEnv(env) && Wf(e, slots, false)
      modifies this
      ensures Outcome(Bind(e, env, old(State())), thrown)
      decreases e, 2
    {
      WfSet(e, env, slots);
      BindIgnoresSlots(e, env, slots);
      var newVars := BuildDefVars(e.defs);
      var newEnv := StaticEnv(None, newVars, env);
      ghost var ts := ExprTasks(e.from, newEnv, 0) + DefTasks(e.defs, newEnv, env, SourceEnv(newEnv), |e.from|);
      ghost var last := Task(e.body, newEnv, 0);
      assert Tasks(e, env, slots) == ts + [last];
      SplitTasks(e, ts, [last], State());
      thrown := BindSet(e, newEnv, env, slots);
      if thrown.None? {
        BindOne(e, last, State());
        thrown := BindVars(e.body, newEnv, 0);
      }
    }

    method BindAttrs(e: Expr, env: StaticEnv, ghost slots: nat) returns (thrown: Option<Symbol>)
      requires e.Attrs? && SortedEnv(env) && Wf(e, slots, false)
      modifies this
      ensures Outcome(Bind(e, env, old(State())), thrown)
      decreases e, 2
    {
      WfSet(e, env, slots);
      BindIgnoresSlots(e, env, slots);
      var newEnv := env;
      if e.recursive {
        var newVars := BuildDefVars(e.defs);
        newEnv := StaticEnv(None, newVars, env);
      }
      ghost var ts := ExprTasks(e.from, newEnv, 0) + DefTasks(e.defs, newEnv, env, SourceEnv(newEnv), |e.from|);
      assert Tasks(e, env, slots) == ts + DynTasks(e.dyn, newEnv);
      SplitTasks(e, ts, DynTasks(e.dyn, newEnv), State());
      thrown := BindSet(e, newEnv, env, slots);
      if thrown.None? {
        assert forall t :: t in DynTasks(e.dyn, newEnv) ==> t in Tasks(e, env, slots);
        thrown := BindDyns(e, e.dyn, newEnv);
      }
    }

    method BindExprs(ghost parent: Expr, es: seq<Expr>, env: StaticEnv, ghost slots: nat)
      returns (thrown: Option<Symbol>)
      requires SortedEnv(env)
      requires forall i :: 0 <= i < |es| ==> es[i] < parent && Wf(es[i], slots, false)
      modifies this
      ensures Outcome(BindAll(parent, ExprTasks(es, env, slots), old(State())), thrown)
      decreases parent, 0
    {
      ghost var ts := ExprTasks(es, env, slots);
      for i := 0 to |es|
        invariant BindAll(parent, ts[..i], old(State())) == Bound(State())
      {
        StepTasks(parent, ts, i, old(State()));
        thrown := BindVars(es[i], env, slots);
        if thrown.Some? {
          return;
        }
      }
      assert ts[..|es|] == ts;
      thrown := None;
    }

    /** The sources and static definitions of a set or `let`, each in the frame
        `chooseByKind` picks. */
    method BindSet(e: Expr, inner: StaticEnv, env: StaticEnv, ghost slots: nat) returns (thrown: Option<Symbol>)
      requires e.Attrs? || e.Let?
      requires SortedEnv(inner) && SortedEnv(env)
      requires forall i :: 0 <= i < |e.from| ==> Wf(e.from[i], 0, false)
      requires forall i :: 0 <= i < |e.defs| ==>
        Wf(e.defs[i].e, if e.defs[i].kind.InheritedFrom? then |e.from| else 0, false)
      modifies this
      ensures Outcome(BindAll(e, ExprTasks(e.from, inner, 0) + DefTasks(e.defs, inner, env, SourceEnv(inner), |e.from|),
        old(State())), thrown)
      decreases e, 1
    {
      hide Bind, Wf;
      ghost var start := State();
      ghost var ts := ExprTasks(e.from, inner, 0);
      ghost var us := DefTasks(e.defs, inner, env, SourceEnv(inner), |e.from|);
      BindAllAppend(e, ts, us, start);
      thrown := BindExprs(e, e.from, inner, 0);
      if thrown.Some? {
        return;
      }
      ghost var mid := State();
      for i := 0 to |e.defs|
        invariant BindAll(e, us[..i], mid) == Bound(State())
      {
        StepTasks(e, us, i, mid);
        var d := e.defs[i];
        var chosen := match d.kind case Plain => inner case Inherited => env case InheritedFrom => SourceEnv(inner);
        thrown := BindVars(d.e, chosen, if d.kind.InheritedFrom? then |e.from| else 0);
        if thrown.Some? {
          return;
        }
      }
      assert us[..|e.defs|] == us;
      thrown := None;
    }

    method BindDyns(ghost parent: Expr, dyn: seq<DynAttr>, env: StaticEnv) returns (thrown: Option<Symbol>)
      requires SortedEnv(env)
      requires forall i :: 0 <= i < |dyn| ==>
        dyn[i].nameExpr < parent && dyn[i].valueExpr < parent && Wf(dyn[i].nameExpr, 0, false) &&
          Wf(dyn[i].valueExpr, 0, false)
      requires forall t :: t in DynTasks(dyn, env) ==> t.e < parent
      modifies this
      ensures Outcome(BindAll(parent, DynTasks(dyn, env), old(State())), thrown)
      decreases parent, 1
    {
      hide Bind, Wf, SortedEnv, BindAll, DynTasks;
      ghost var ts := DynTasks(dyn, env);
      NoneBound(parent, ts, State());
      for i := 0 to |dyn|
        invariant BindAll(parent, ts[..2 * i], old(State())) == Bound(State())
      {
        DynStep(parent, dyn, env, i, old(State()));
        thrown := BindVars(dyn[i].nameExpr, env, 0);
        if thrown.Some? {
          return;
        }
        thrown := BindVars(dyn[i].valueExpr, env, 0);
        if thrown.Some? {
          return;
        }
      }
      assert ts[..2 * |dyn|] == ts;
      thrown := None;
    }

    method BindLambda(e: Expr, env: StaticEnv, ghost slots: nat) returns (thrown: Option<Symbol>)
      requires e.Lambda? && SortedEnv(env) && Wf(e, slots, false)
      modifies this
      ensures Outcome(Bind(e, env, old(State())), thrown)
      decreases e, 2
    {
      WfTasks(e, env, slots);
      BindIgnoresSlots(e, env, slots);
      var newVars := BuildLambdaVars(e.arg, e.formals);
      var newEnv := StaticEnv(None, newVars, env);
      LambdaEnvSorted(e.arg, e.formals, env);
      var fs := FormalsOf(e.formals);
      ghost var ts, last := DefaultTasks(fs, newEnv), Task(e.body, newEnv, 0);
      assert Tasks(e, env, slots) == ts + [last];
      SplitTasks(e, ts, [last], State());
      assert last in Tasks(e, env, slots);
      forall i | 0 <= i < |fs| && fs[i].def.Some?
        ensures fs[i].def.value < e && Wf(fs[i].def.value, 0, false)
      {
        assert Task(fs[i].def.value, newEnv, 0) in Tasks(e, env, slots);
      }
      thrown := BindDefaults(e, fs, newEnv);
      if thrown.None? {
        BindOne(e, last, State());
        thrown := BindVars(e.body, newEnv, 0);
      }
    }

    method BindDefaults(ghost parent: Expr, fs: seq<Formal>, env: StaticEnv) returns (thrown: Option<Symbol>)
      requires SortedEnv(env)
      requires forall i :: 0 <= i < |fs| && fs[i].def.Some? ==>
        fs[i].def.value < parent && Wf(fs[i].def.value, 0, false)
      requires forall t :: t in DefaultTasks(fs, env) ==> t.e < parent
      modifies this
      ensures Outcome(BindAll(parent, DefaultTasks(fs, env), old(State())), thrown)
      decreases parent, 1
    {
      hide Bind, Wf;
      ghost var start := State();
      for i := 0 to |fs|
        invariant forall t :: t in DefaultTasks(fs[..i], env) ==> t.e < parent
        invariant BindAll(parent, DefaultTasks(fs[..i], env), start) == Bound(State())
      {
        DefaultTasksSnoc(fs, env, i);
        ghost var done := DefaultTasks(fs[..i], env);
        if fs[i].def.Some? {
          ghost var t := Task(fs[i].def.value, env, 0);
          SplitTasks(parent, done, [t], start);
          BindOne(parent, t, State());
          thrown := BindVars(fs[i].def.value, env, 0);
          if thrown.Some? {
            DefaultTasksSplit(fs, env, i + 1);
            SplitTasks(parent, DefaultTasks(fs[..i + 1], env), DefaultTasks(fs[i + 1..], env), start);
            return;
          }
        } else {
          assert DefaultTasks(fs[..i + 1], env) == done;
        }
      }
      assert fs[..|fs|] == fs;
      thrown := None;
    }

    method BindWith(e: Expr, env: StaticEnv, ghost slots: nat) returns (thrown: Option<Symbol>)
      requires e.With? && SortedEnv(env) && Wf(e, slots, false)
      modifies this
      ensures Outcome(Bind(e, env, old(State())), thrown)
      decreases e, 2
    {
      WfTasks(e, env, slots);
      BindIgnoresSlots(e, env, slots);
      var parentWith := NearestWithNode(env);
      var level := NearestWithLevel(env, 1);
      var prevWith := if level.Some? then level.value else 0;
      withs := withs[e.id := WithInfo(prevWith, parentWith)];
      ghost var start := State();
      var newEnv := StaticEnv(Some(e.id), [], env);
      ghost var first, second := Task(e.attrs, env, slots), Task(e.body, newEnv, 0);
      assert Tasks(e, env, slots) == [first] + [second];
      SplitTasks(e, [first], [second], start);
      BindOne(e, first, start);
      thrown := BindVars(e.attrs, env, slots);
      if thrown.None? {
        BindOne(e, second, State());
        thrown := BindVars(e.body, newEnv, 0);
      }
    }
  }

  /* Bookkeeping about task lists */

  lemma {:induction false} WfTasks(e: Expr, env: StaticEnv, slots: nat)
    requires Wf(e, slots, false)
    ensures forall i :: 0 <= i < |Tasks(e, env, slots)| ==>
      Wf(Tasks(e, env, slots)[i].e, Tasks(e, env, slots)[i].slots, false)
    ensures forall t :: t in Tasks(e, env, slots) ==> Wf(t.e, t.slots, false)
  {
    TasksSame(e, env, NoEnv, slots, slots);
  }

  /** The children of a node that binds nothing, in the order they are bound. */
  ghost function PlainChildren(e: Expr): seq<Expr> {
    match e
    case List(elems) => elems
    case Select(s, _, def) => [s] + if def.Some? then [def.value] else []
    case Call(fun, args) => [fun] + args
    case If(cond, thn, els) => [cond, thn, els]
    case _ => []
  }

  lemma {:induction false} PlainTasks(e: Expr, env: StaticEnv, slots: nat)
    ensures forall i :: 0 <= i < |PlainChildren(e)| ==> PlainChildren(e)[i] < e
    ensures e.List? || e.Select? || e.Call? || e.If? ==> ExprTasks(PlainChildren(e), env, slots) == Tasks(e, env, slots)
  {
    match e
    case Select(s, _, def) => SelectTasks(e, env, slots);
    case Call(fun, args) => CallTasks(e, env, slots);
    case If(_, _, _) => assert Tasks(e, env, slots) == ExprTasks([e.cond, e.thn, e.els], env, slots);
    case _ =>
  }

  lemma {:induction false} SelectTasks(e: Expr, env: StaticEnv, slots: nat)
    requires e.Select?
    ensures ExprTasks(PlainChildren(e), env, slots) == Tasks(e, env, slots)
  {
    assert Tasks(e, env, slots) == [Task(e.e, env, slots)] + OptTask(e.def, env, slots);
  }

  lemma {:induction false} CallTasks(e: Expr, env: StaticEnv, slots: nat)
    requires e.Call?
    ensures ExprTasks(PlainChildren(e), env, slots) == Tasks(e, env, slots)
  {
    var ts, us := ExprTasks([e.fun] + e.args, env, slots), [Task(e.fun, env, slots)] + ExprTasks(e.args, env, slots);
    assert PlainChildren(e) == [e.fun] + e.args && Tasks(e, env, slots) == us;
    hide Tasks, PlainChildren;
    assert forall i :: 0 <= i < |ts| ==> ts[i] == us[i];
  }

  lemma {:induction false} LeafBinds(e: Expr, env: StaticEnv, notes: Notes)
    ensures e.Int? || e.Str? || e.Null? || e.InheritFrom? ==> Bind(e, env, notes) == Bound(notes)
  {
  }

  ghost predicate AllWf(ts: seq<Task>) {
    forall i :: 0 <= i < |ts| ==> Wf(ts[i].e, ts[i].slots, false)
  }

  lemma {:induction false} AllWfSplit(ts: seq<Task>, us: seq<Task>, vs: seq<Task>)
    requires AllWf(ts + us + vs)
    ensures AllWf(ts) && AllWf(us) && AllWf(vs)
  {
    var all := ts + us + vs;
    assert forall i :: 0 <= i < |ts| ==> ts[i] == all[i];
    assert forall i :: 0 <= i < |us| ==> us[i] == all[|ts| + i];
    assert forall i :: 0 <= i < |vs| ==> vs[i] == all[|ts| + |us| + i];
  }

  lemma {:induction false} WfSet(e: Expr, env: StaticEnv, slots: nat)
    requires (e.Attrs? || e.Let?) && Wf(e, slots, false)
    ensures SortedEnv(env) ==> SortedEnv(RecEnv(e.defs, env))
    ensures forall i :: 0 <= i < |e.from| ==> Wf(e.from[i], 0, false)
    ensures forall i :: 0 <= i < |e.defs| ==>
      Wf(e.defs[i].e, if e.defs[i].kind.InheritedFrom? then |e.from| else 0, false)
    ensures e.Attrs? ==> forall i :: 0 <= i < |e.dyn| ==>
      Wf(e.dyn[i].nameExpr, 0, false) && Wf(e.dyn[i].valueExpr, 0, false)
    ensures e.Let? ==> Wf(e.body, 0, false)
  {
    var inner := if e.Let? || e.recursive then RecEnv(e.defs, env) else env;
    var a, b := ExprTasks(e.from, inner, 0), DefTasks(e.defs, inner, env, SourceEnv(inner), |e.from|);
    var c := if e.Let? then [Task(e.body, inner, 0)] else DynTasks(e.dyn, inner);
    WfTasks(e, env, slots);
    assert Tasks(e, env, slots) == a + b + c;
    AllWfSplit(a, b, c);
    forall i | 0 <= i < |e.from|
      ensures Wf(e.from[i], 0, false)
    {
      assert a[i].e == e.from[i];
    }
    forall i | 0 <= i < |e.defs|
      ensures Wf(e.defs[i].e, if e.defs[i].kind.InheritedFrom? then |e.from| else 0, false)
    {
      assert b[i].e == e.defs[i].e;
    }
    if e.Attrs? {
      forall i | 0 <= i < |e.dyn|
        ensures Wf(e.dyn[i].nameExpr, 0, false) && Wf(e.dyn[i].valueExpr, 0, false)
      {
        assert c[2 * i] == Task(e.dyn[i].nameExpr, inner, 0) && c[2 * i + 1] == Task(e.dyn[i].valueExpr, inner, 0);
      }
    } else {
      assert c[0].e == e.body;
    }
  }

  lemma {:induction false} BindIgnoresSlots(e: Expr, env: StaticEnv, slots: nat)
    ensures forall notes :: BindAll(e, Tasks(e, env, slots), notes) == BindAll(e, Tasks(e, env, 0), notes)
  {
    TasksSame(e, env, env, slots, 0);
    forall notes
      ensures BindAll(e, Tasks(e, env, slots), notes) == BindAll(e, Tasks(e, env, 0), notes)
    {
      BindAllSame(e, Tasks(e, env, slots), Tasks(e, env, 0), notes);
    }
  }

  lemma {:induction false} SplitTasks(parent: Expr, ts: seq<Task>, us: seq<Task>, notes: Notes)
    requires forall t :: t in ts + us ==> t.e < parent
    ensures forall t :: t in ts || t in us ==> t.e < parent
    ensures BindAll(parent, ts + us, notes) ==
            var r := BindAll(parent, ts, notes);
            if r.Undefined? then r else BindAll(parent, us, r.notes)
  {
    BindAllAppend(parent, ts, us, notes);
  }

  lemma {:induction false} BindOne(parent: Expr, t: Task, notes: Notes)
    requires t.e < parent
    ensures BindAll(parent, [t], notes) == Bind(t.e, t.env, notes)
  {
    assert [t][1..] == [];
  }

  /** One more task: either the whole list stops here, or the prefix grows by one. */
  lemma {:induction false} StepTasks(parent: Expr, ts: seq<Task>, i: nat, notes: Notes)
    requires forall t :: t in ts ==> t.e < parent
    requires i < |ts|
    ensures var before := BindAll(parent, ts[..i], notes);
      before.Bound? ==>
        var now := Bind(ts[i].e, ts[i].env, before.notes);
        && BindAll(parent, ts[..i + 1], notes) == now
        && (now.Undefined? ==> BindAll(parent, ts, notes) == now)
  {
    assert ts[..i + 1] == ts[..i] + [ts[i]];
    BindAllAppend(parent, ts[..i], [ts[i]], notes);
    assert ts == ts[..i + 1] + ts[i + 1..];
    BindAllAppend(parent, ts[..i + 1], ts[i + 1..], notes);
    var before := BindAll(parent, ts[..i], notes);
    if before.Bound? {
      BindOne(parent, ts[i], before.notes);
    }
  }

  ghost predicate TwoSteps(parent: Expr, ts: seq<Task>, k: nat, first: Task, second: Task, notes: Notes)
    requires forall t :: t in ts ==> t.e < parent
    requires k + 2 <= |ts|
  {
    var before := BindAll(parent, ts[..k], notes);
    before.Bound? ==>
      var named := Bind(first.e, first.env, before.notes);
      && (named.Undefined? ==> BindAll(parent, ts, notes) == named)
      && (named.Bound? ==>
            var now := Bind(second.e, second.env, named.notes);
            && BindAll(parent, ts[..k + 2], notes) == now
            && (now.Undefined? ==> BindAll(parent, ts, notes) == now))
  }

  lemma {:induction false} StepTwo(parent: Expr, ts: seq<Task>, k: nat, notes: Notes)
    requires forall t :: t in ts ==> t.e < parent
    requires k + 2 <= |ts|
    ensures TwoSteps(parent, ts, k, ts[k], ts[k + 1], notes)
  {
    StepTasks(parent, ts, k, notes);
    StepTasks(parent, ts, k + 1, notes);
  }

  /** The two steps of one dynamic attribute. */
  lemma {:induction false} NoneBound(parent: Expr, ts: seq<Task>, notes: Notes)
    requires forall t :: t in ts ==> t.e < parent
    ensures BindAll(parent, ts[..0], notes) == Bound(notes)
  {
  }

  lemma {:induction false} DynStep(parent: Expr, dyn: seq<DynAttr>, env: StaticEnv, i: nat, notes: Notes)
    requires forall t :: t in DynTasks(dyn, env) ==> t.e < parent
    requires i < |dyn|
    ensures 2 * i + 2 <= |DynTasks(dyn, env)|
    ensures TwoSteps(parent, DynTasks(dyn, env), 2 * i, Task(dyn[i].nameExpr, env, 0), Task(dyn[i].valueExpr, env, 0),
      notes)
  {
    StepTwo(parent, DynTasks(dyn, env), 2 * i, notes);
  }

  lemma {:induction false} DefaultTasksFirst(fs: seq<Formal>, env: StaticEnv)
    requires fs != []
    ensures DefaultTasks(fs, env)
         == (if fs[0].def.Some? then [Task(fs[0].def.value, env, 0)] else []) + DefaultTasks(fs[1..], env)
  {
  }

  lemma JoinedTasks(ts: seq<Task>, us: seq<Task>, vs: seq<Task>)
    ensures ts + (us + vs) == ts + us + vs
  {
  }

  lemma {:induction false} DefaultTasksSplit(fs: seq<Formal>, env: StaticEnv, i: nat)
    requires i <= |fs|
    ensures DefaultTasks(fs, env) == DefaultTasks(fs[..i], env) + DefaultTasks(fs[i..], env)
  {
    if i == 0 {
      assert fs[..0] == [] && fs[0..] == fs;
    } else {
      DefaultTasksSplit(fs[1..], env, i - 1);
      DefaultTasksFirst(fs, env);
      DefaultTasksFirst(fs[..i], env);
      hide DefaultTasks;
      assert fs[..i][1..] == fs[1..][..i - 1] && fs[..i][0] == fs[0];
      assert fs[1..][i - 1..] == fs[i..];
      var first := if fs[0].def.Some? then [Task(fs[0].def.value, env, 0)] else [];
      JoinedTasks(first, DefaultTasks(fs[..i][1..], env), DefaultTasks(fs[i..], env));
    }
  }

  lemma {:induction false} DefaultTasksSnoc(fs: seq<Formal>, env: StaticEnv, i: nat)
    requires i < |fs|
    ensures DefaultTasks(fs[..i + 1], env) ==
      DefaultTasks(fs[..i], env) + if fs[i].def.Some? then [Task(fs[i].def.value, env, 0)] else []
  {
    DefaultTasksSplit(fs[..i + 1], env, i);
    assert fs[..i + 1][..i] == fs[..i];
    assert fs[..i + 1][i..] == [fs[i]];
    assert DefaultTasks([fs[i]], env) ==
      (if fs[i].def.Some? then [Task(fs[i].def.value, env, 0)] else []) + DefaultTasks([], env);
  }
}
