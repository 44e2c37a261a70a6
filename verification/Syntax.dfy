/** The core of the Nix expression language, as the parser hands it to `bindVars`.

    Every variable and every `with` is an AST node of its own, named by a
    `NodeId`; the fields `bindVars` writes into such a node live in `Notes`. */
module Syntax {
  import opened Common
  import opened StaticVars

  type NodeId = nat

  datatype AttrKind = Plain | Inherited | InheritedFrom

  /** One static attribute of a set or `let`. A set keeps them in a map ordered by
      symbol, so the sequence is strictly sorted and the displacement of a
      definition is its index. */
  datatype AttrDef = AttrDef(name: Symbol, kind: AttrKind, e: Expr)

  datatype DynAttr = DynAttr(nameExpr: Expr, valueExpr: Expr)

  datatype Formal = Formal(name: Symbol, def: Option<Expr>)

  datatype Formals = Formals(formals: seq<Formal>, ellipsis: bool)

  datatype Expr =
    | Int(n: int)
    | Str(s: Symbol)
    | Null
    | Var(id: NodeId, name: Symbol)
    /** A reference to a source of `inherit (from)`: the displacement the parser left in the
        node, and the index of the source the definition was written with. */
    | InheritFrom(displ: nat, own: nat)
    | Select(e: Expr, path: seq<Symbol>, def: Option<Expr>)
    | Attrs(recursive: bool, defs: seq<AttrDef>, from: seq<Expr>, dyn: seq<DynAttr>)
    | List(elems: seq<Expr>)
    | Lambda(arg: Option<Symbol>, formals: Option<Formals>, body: Expr)
    | Call(fun: Expr, args: seq<Expr>)
    | Let(defs: seq<AttrDef>, from: seq<Expr>, body: Expr)
    | With(id: NodeId, attrs: Expr, body: Expr)
    | If(cond: Expr, thn: Expr, els: Expr)

  /* Static environments */

  /** `StaticEnv` of the source: a `with` frame remembers its node and binds no
      name; every other frame maps names to displacements. */
  datatype StaticEnv =
    | NoEnv
    | StaticEnv(isWith: Option<NodeId>, vars: seq<VarSlot>, up: StaticEnv)

  ghost predicate SortedEnv(env: StaticEnv) {
    env.NoEnv? || (SortedVars(env.vars) && SortedEnv(env.up))
  }

  function DefVars(defs: seq<AttrDef>): (r: seq<VarSlot>)
    ensures |r| == |defs|
    ensures forall i :: 0 <= i < |r| ==> r[i] == VarSlot(defs[i].name, i)
  {
    seq(|defs|, i requires 0 <= i < |defs| => VarSlot(defs[i].name, i))
  }

  function FormalVars(formals: seq<Formal>, base: nat): (r: seq<VarSlot>)
    ensures |r| == |formals|
    ensures forall i :: 0 <= i < |r| ==> r[i] == VarSlot(formals[i].name, base + i)
  {
    seq(|formals|, i requires 0 <= i < |formals| => VarSlot(formals[i].name, base + i))
  }

  /** The argument name of a lambda occupies slot 0, if there is one. */
  function ArgVars(arg: Option<Symbol>): seq<VarSlot> {
    if arg.Some? then [VarSlot(arg.value, 0)] else []
  }

  function FormalsOf(formals: Option<Formals>): seq<Formal> {
    if formals.Some? then formals.value.formals else []
  }

  function LambdaSlots(arg: Option<Symbol>, formals: Option<Formals>): seq<VarSlot> {
    ArgVars(arg) + FormalVars(FormalsOf(formals), |ArgVars(arg)|)
  }

  function LambdaEnv(arg: Option<Symbol>, formals: Option<Formals>, env: StaticEnv): StaticEnv {
    StaticEnv(None, SortVars(LambdaSlots(arg, formals)), env)
  }

  function RecEnv(defs: seq<AttrDef>, env: StaticEnv): StaticEnv {
    StaticEnv(None, DefVars(defs), env)
  }

  /** The frame that holds the sources of `inherit (from)`; it binds no name. */
  function SourceEnv(env: StaticEnv): StaticEnv {
    StaticEnv(None, [], env)
  }

  /* Children of a node, with the scope in which `bindVars` visits each */

  /** A sub-expression, the static environment it is bound in, and the number of
      `inherit (from)` slots it may refer to (zero outside such a definition). */
  datatype Task = Task(e: Expr, env: StaticEnv, slots: nat)

  function ExprTasks(es: seq<Expr>, env: StaticEnv, slots: nat): (ts: seq<Task>)
    ensures |ts| == |es|
    ensures forall i :: 0 <= i < |es| ==> ts[i] == Task(es[i], env, slots)
  {
    seq(|es|, i requires 0 <= i < |es| => Task(es[i], env, slots))
  }

  /** `chooseByKind`. */
  function DefTask(d: AttrDef, plain: StaticEnv, inherited: StaticEnv, source: StaticEnv, slots: nat): Task {
    match d.kind
    case Plain => Task(d.e, plain, 0)
    case Inherited => Task(d.e, inherited, 0)
    case InheritedFrom => Task(d.e, source, slots)
  }

  function DefTasks(
      defs: seq<AttrDef>, plain: StaticEnv, inherited: StaticEnv, source: StaticEnv, slots: nat): (ts: seq<Task>)
    ensures |ts| == |defs|
    ensures forall i :: 0 <= i < |defs| ==> ts[i] == DefTask(defs[i], plain, inherited, source, slots)
  {
    seq(|defs|, i requires 0 <= i < |defs| => DefTask(defs[i], plain, inherited, source, slots))
  }

  function DynTasks(dyn: seq<DynAttr>, env: StaticEnv): (ts: seq<Task>)
    ensures |ts| == 2 * |dyn|
    ensures forall i :: 0 <= i < |dyn| ==>
      ts[2 * i] == Task(dyn[i].nameExpr, env, 0) && ts[2 * i + 1] == Task(dyn[i].valueExpr, env, 0)
    ensures forall i :: 0 <= i < |ts| ==>
      ts[i].e == (if i % 2 == 0 then dyn[i / 2].nameExpr else dyn[i / 2].valueExpr)
  {
    seq(2 * |dyn|, i requires 0 <= i < 2 * |dyn| =>
      Task(if i % 2 == 0 then dyn[i / 2].nameExpr else dyn[i / 2].valueExpr, env, 0))
  }

  /** Formals without a default contribute no sub-expression. */
  function DefaultTasks(formals: seq<Formal>, env: StaticEnv): (ts: seq<Task>)
    ensures forall i :: 0 <= i < |formals| && formals[i].def.Some? ==> Task(formals[i].def.value, env, 0) in ts
    ensures forall t :: t in ts ==>
      exists i :: 0 <= i < |formals| && formals[i].def.Some? && t == Task(formals[i].def.value, env, 0)
  {
    if formals == [] then
      []
    else
      (if formals[0].def.Some? then [Task(formals[0].def.value, env, 0)] else []) + DefaultTasks(formals[1..], env)
  }

  function OptTask(e: Option<Expr>, env: StaticEnv, slots: nat): seq<Task> {
    if e.Some? then [Task(e.value, env, slots)] else []
  }

  function Tasks(e: Expr, env: StaticEnv, slots: nat): (ts: seq<Task>)
    ensures forall t :: t in ts ==> t.e < e
  {
    match e
    case Int(_) => []
    case Str(_) => []
    case Null => []
    case Var(_, _) => []
    case InheritFrom(_, _) => []
    case Select(s, _, def) =>
      [Task(s, env, slots)] + OptTask(def, env, slots)
    case Attrs(recursive, defs, from, dyn) =>
      var inner := if recursive then RecEnv(defs, env) else env;
      ExprTasks(from, inner, 0) + DefTasks(defs, inner, env, SourceEnv(inner), |from|) + DynTasks(dyn, inner)
    case List(elems) =>
      ExprTasks(elems, env, slots)
    case Lambda(arg, formals, body) =>
      var inner := LambdaEnv(arg, formals, env);
      DefaultTasks(FormalsOf(formals), inner) + [Task(body, inner, 0)]
    case Call(fun, args) =>
      [Task(fun, env, slots)] + ExprTasks(args, env, slots)
    case Let(defs, from, body) =>
      var inner := RecEnv(defs, env);
      ExprTasks(from, inner, 0) + DefTasks(defs, inner, env, SourceEnv(inner), |from|) + [Task(body, inner, 0)]
    case With(id, attrs, body) =>
      [Task(attrs, env, slots), Task(body, StaticEnv(Some(id), [], env), 0)]
    case If(cond, thn, els) =>
      [Task(cond, env, slots), Task(thn, env, slots), Task(els, env, slots)]
  }
}
