/** Values, environments and the evaluator.

    The evaluator threads a heap of value cells and environment frames and takes
    fuel, so it is total. It runs in one of two modes that share every rule except
    how a frame is built and how a variable is looked up:
    - `ByName` keeps the names in the frames and searches them, which is the meaning
      of the language;
    - `ByIndex` keeps bare slots, and follows the fields written by `bindVars`. */
module Runtime {
  import opened Common
  import opened StaticVars
  import opened Syntax
  import opened Binder

  type Addr = nat
  type EnvAddr = nat

  datatype Error =
    | UndefinedVar(name: Symbol)
    | InfiniteRecursion
    | NotASet
    | NotAFunction
    | NotABool
    | BadAttrName
    | MissingAttr(name: Symbol)
    | DuplicateAttr(name: Symbol)
    | MissingArgument(name: Symbol)
    | UnexpectedArgument
    /** A read outside a frame, through an empty slot or of a field never written. */
    | Crash

  datatype Value =
    | VInt(n: int)
    | VStr(s: Symbol)
    | VNull
    | VBool(b: bool)
    | VAttrs(attrs: map<Symbol, Addr>)
    | VList(elems: seq<Addr>)
    | VLambda(arg: Option<Symbol>, formals: Option<Formals>, body: Expr, env: EnvAddr)

  datatype Cell =
    | Thunk(e: Expr, env: EnvAddr)
    | Blackhole
    | Failed(error: Error)
    | Done(value: Value)

  /** A frame. `names` and `isWith` are what the by-name reading needs; frames built
      by index leave them empty. A slot is empty until its definition is reached. */
  datatype Env = Env(names: seq<Symbol>, isWith: bool, slots: seq<Option<Addr>>, up: Option<EnvAddr>)

  datatype Heap = Heap(cells: seq<Cell>, envs: seq<Env>)

  datatype Result<+T> = Ok(value: T) | Err(error: Error) | OutOfFuel

  datatype Out<+T> = Out(r: Result<T>, h: Heap)

  datatype Mode = ByName | ByIndex(notes: Notes)

  /* Allocation and update */

  function NewCell(h: Heap, c: Cell): (Addr, Heap) {
    (|h.cells|, h.(cells := h.cells + [c]))
  }

  function SetCell(h: Heap, a: Addr, c: Cell): Heap {
    if a < |h.cells| then h.(cells := h.cells[a := c]) else h
  }

  function EraseEnv(env: Env): Env {
    env.(names := [], isWith := false)
  }

  function NewEnv(m: Mode, h: Heap, env: Env): (EnvAddr, Heap) {
    (|h.envs|, h.(envs := h.envs + [if m.ByName? then env else EraseEnv(env)]))
  }

  function SetSlot(h: Heap, env: EnvAddr, i: nat, a: Addr): Heap {
    if env < |h.envs| && i < |h.envs[env].slots| then
      h.(envs := h.envs[env := h.envs[env].(slots := h.envs[env].slots[i := Some(a)])])
    else h
  }

  function EmptySlots(n: nat): seq<Option<Addr>> {
    seq(n, i => None)
  }

  function FullSlots(addrs: seq<Addr>): seq<Option<Addr>> {
    seq(|addrs|, i requires 0 <= i < |addrs| => Some(addrs[i]))
  }

  /* Looking variables up */

  datatype SlotRef =
    | Slot(a: Addr)
    | EmptySlot
    | NotLexical
    | Bad

  function ReadSlot(h: Heap, env: EnvAddr, i: nat): SlotRef {
    if env < |h.envs| && i < |h.envs[env].slots| then
      (match h.envs[env].slots[i] case Some(a) => Slot(a) case None => EmptySlot)
    else Bad
  }

  function IndexOf(names: seq<Symbol>, name: Symbol): (r: Option<nat>)
    ensures r.Some? ==> r.value < |names| && names[r.value] == name
    ensures r.None? ==> name !in names
  {
    if names == [] then None
    else if names[0] == name then Some(0)
    else
      var rest := IndexOf(names[1..], name);
      if rest.Some? then Some(rest.value + 1) else None
  }

  /** By name: the innermost lexical frame that binds the name. A frame's parent was
      allocated before it. */
  function NameSlot(h: Heap, env: EnvAddr, name: Symbol): SlotRef
    decreases env
  {
    if env >= |h.envs| then
      Bad
    else
      var f := h.envs[env];
      var here := if f.isWith then None else IndexOf(f.names, name);
      if here.Some? then ReadSlot(h, env, here.value)
      else if f.up.None? then NotLexical
      else if f.up.value < env then NameSlot(h, f.up.value, name)
      else Bad
  }

  /** By name: the innermost `with` frame at or above a frame. */
  function NextWith(h: Heap, env: EnvAddr): Option<EnvAddr>
    decreases env
  {
    if env >= |h.envs| then None
    else if h.envs[env].isWith then Some(env)
    else if h.envs[env].up.Some? && h.envs[env].up.value < env then NextWith(h, h.envs[env].up.value)
    else None
  }

  /** By index: `level` steps up. */
  function WalkUp(h: Heap, env: EnvAddr, level: nat): Option<EnvAddr>
    decreases level
  {
    if env >= |h.envs| then None
    else if level == 0 then Some(env)
    else if h.envs[env].up.Some? then WalkUp(h, h.envs[env].up.value, level - 1)
    else None
  }

  /** `lookupVar` without evaluation. */
  function FindSlot(m: Mode, id: NodeId, name: Symbol, h: Heap, env: EnvAddr): SlotRef {
    match m
    case ByName => NameSlot(h, env, name)
    case ByIndex(notes) =>
      if id !in notes.vars then Bad
      else
        var info := notes.vars[id];
        match WalkUp(h, env, info.level)
        case None => Bad
        case Some(target) => if info.fromWith.None? then ReadSlot(h, target, info.displ) else NotLexical
  }

  /** The source of an `inherit (from)` definition: its own, or by index the one at the
      displacement. */
  function SourceSlot(m: Mode, displ: nat, own: nat, h: Heap, env: EnvAddr): SlotRef {
    ReadSlot(h, env, if m.ByName? then own else displ)
  }

  /** `maybeThunk`: a delayed computation, unless the expression is a variable whose
      slot is already filled, or a literal. */
  function MaybeThunk(m: Mode, e: Expr, h: Heap, env: EnvAddr): (Addr, Heap) {
    match e
    case Int(n) => NewCell(h, Done(VInt(n)))
    case Str(s) => NewCell(h, Done(VStr(s)))
    case Var(id, name) =>
      (match FindSlot(m, id, name, h, env)
       case Slot(a) => (a, h)
       case _ => NewCell(h, Thunk(e, env)))
    case InheritFrom(displ, own) =>
      (match SourceSlot(m, displ, own, h, env)
       case Slot(a) => (a, h)
       case _ => NewCell(h, Thunk(e, env)))
    case _ => NewCell(h, Thunk(e, env))
  }

  function MaybeThunkAll(m: Mode, es: seq<Expr>, h: Heap, env: EnvAddr): (r: (seq<Addr>, Heap))
    ensures |r.0| == |es|
  {
    if es == [] then
      ([], h)
    else
      var (a, h1) := MaybeThunk(m, es[0], h, env);
      var (rest, h2) := MaybeThunkAll(m, es[1..], h1, env);
      ([a] + rest, h2)
  }

  /** `buildInheritFromEnv`; there is no such frame without sources. */
  function SourceFrame(m: Mode, from: seq<Expr>, h: Heap, up: EnvAddr): (EnvAddr, Heap) {
    if from == [] then
      (up, h)
    else
      var (addrs, h1) := MaybeThunkAll(m, from, h, up);
      NewEnv(m, h1, Env([], false, FullSlots(addrs), Some(up)))
  }

  /** The frame `chooseByKind` picks for a definition. */
  function ChooseEnv(kind: AttrKind, plain: EnvAddr, inherited: EnvAddr, source: EnvAddr): EnvAddr {
    match kind
    case Plain => plain
    case Inherited => inherited
    case InheritedFrom => source
  }

  function DefThunk(
      m: Mode, d: AttrDef, noShortcut: bool, h: Heap, plain: EnvAddr, inherited: EnvAddr, source: EnvAddr)
    : (Addr, Heap)
  {
    var env := ChooseEnv(d.kind, plain, inherited, source);
    if noShortcut && !d.kind.Inherited? then NewCell(h, Thunk(d.e, env)) else MaybeThunk(m, d.e, h, env)
  }

  /** The definitions of a `let` or recursive set, filling the slots of their own frame
      one by one, from definition `i` on. */
  function FillDefs(
      m: Mode, defs: seq<AttrDef>, i: nat, noShortcut: bool, h: Heap, frame: EnvAddr, outer: EnvAddr, source: EnvAddr)
    : (r: (seq<Addr>, Heap))
    requires i <= |defs|
    ensures |r.0| == |defs| - i
    decreases |defs| - i
  {
    if i == |defs| then
      ([], h)
    else
      var (a, h1) := DefThunk(m, defs[i], noShortcut, h, frame, outer, source);
      var (rest, h2) := FillDefs(m, defs, i + 1, noShortcut, SetSlot(h1, frame, i, a), frame, outer, source);
      ([a] + rest, h2)
  }

  function PlainDefs(m: Mode, defs: seq<AttrDef>, h: Heap, env: EnvAddr, source: EnvAddr): (r: (seq<Addr>, Heap))
    ensures |r.0| == |defs|
  {
    if defs == [] then
      ([], h)
    else
      var (a, h1) := DefThunk(m, defs[0], false, h, env, env, source);
      var (rest, h2) := PlainDefs(m, defs[1..], h1, env, source);
      ([a] + rest, h2)
  }

  function NamesOf(defs: seq<AttrDef>): (r: seq<Symbol>)
    ensures |r| == |defs|
  {
    seq(|defs|, i requires 0 <= i < |defs| => defs[i].name)
  }

  /** A frame for the definitions, the frame for their sources, and every definition
      thunked: shared by `let` and recursive sets. */
  function RecFrame(
      m: Mode, defs: seq<AttrDef>, from: seq<Expr>, noShortcut: bool, h: Heap, env: EnvAddr)
    : (r: (EnvAddr, seq<Addr>, Heap))
    ensures |r.1| == |defs|
  {
    var (frame, h1) := NewEnv(m, h, Env(NamesOf(defs), false, EmptySlots(|defs|), Some(env)));
    var (source, h2) := SourceFrame(m, from, h1, frame);
    var (addrs, h3) := FillDefs(m, defs, 0, noShortcut, h2, frame, env, source);
    (frame, addrs, h3)
  }

  function Zip(defs: seq<AttrDef>, addrs: seq<Addr>): map<Symbol, Addr>
    requires |defs| == |addrs|
  {
    if defs == [] then map[]
    else Zip(defs[1..], addrs[1..])[defs[0].name := addrs[0]]
  }

  function DefIndex(defs: seq<AttrDef>, name: Symbol): Option<nat> {
    IndexOf(NamesOf(defs), name)
  }

  /** `__overrides`: its attributes replace the slots of the definitions they name. */
  function Override(defs: seq<AttrDef>, i: nat, over: map<Symbol, Addr>, h: Heap, frame: EnvAddr): Heap
    requires i <= |defs|
    decreases |defs| - i
  {
    if i == |defs| then h
    else
      var h1 := if defs[i].name in over then SetSlot(h, frame, i, over[defs[i].name]) else h;
      Override(defs, i + 1, over, h1, frame)
  }

  /* Evaluation */

  function Fail<T>(e: Error, h: Heap): Out<T> {
    Out(Err(e), h)
  }

  function Cast<T, U>(o: Out<T>): (r: Out<U>)
    requires !o.r.Ok?
    ensures r.h == o.h && !r.r.Ok?
  {
    match o.r
    case Err(e) => Out(Err(e), o.h)
    case OutOfFuel => Out(OutOfFuel, o.h)
  }

  function Eval(m: Mode, e: Expr, h: Heap, env: EnvAddr, fuel: nat): Out<Value>
    decreases fuel
  {
    if fuel == 0 then Out(OutOfFuel, h) else
    match e
    case Int(n) => Out(Ok(VInt(n)), h)
    case Str(s) => Out(Ok(VStr(s)), h)
    case Null => Out(Ok(VNull), h)
    case Var(id, name) =>
      var o := LookupVar(m, id, name, h, env, fuel - 1);
      if o.r.Ok? then Force(m, o.r.value, o.h, fuel - 1) else Cast(o)
    case InheritFrom(displ, own) =>
      (match SourceSlot(m, displ, own, h, env)
       case Slot(a) => Force(m, a, h, fuel - 1)
       case _ => Fail(Crash, h))
    case Select(s, path, def) =>
      var o := Eval(m, s, h, env, fuel - 1);
      if o.r.Ok? then SelectPath(m, o.r.value, path, def, o.h, env, fuel - 1) else o
    case Attrs(recursive, defs, from, dyn) =>
      if recursive then EvalRec(m, defs, from, dyn, h, env, fuel - 1)
      else
        var (source, h1) := SourceFrame(m, from, h, env);
        var (addrs, h2) := PlainDefs(m, defs, h1, env, source);
        AddDynamic(m, dyn, Zip(defs, addrs), h2, env, fuel - 1)
    case List(elems) =>
      var (addrs, h1) := MaybeThunkAll(m, elems, h, env);
      Out(Ok(VList(addrs)), h1)
    case Lambda(arg, formals, body) => Out(Ok(VLambda(arg, formals, body, env)), h)
    case Call(fun, args) =>
      var o := Eval(m, fun, h, env, fuel - 1);
      if o.r.Ok? then
        var (addrs, h1) := MaybeThunkAll(m, args, o.h, env);
        CallFunction(m, o.r.value, addrs, h1, fuel - 1)
      else o
    case Let(defs, from, body) =>
      var (frame, _, h1) := RecFrame(m, defs, from, false, h, env);
      Eval(m, body, h1, frame, fuel - 1)
    case With(_, attrs, body) =>
      var (a, h1) := MaybeThunk(m, attrs, h, env);
      var (frame, h2) := NewEnv(m, h1, Env([], true, [Some(a)], Some(env)));
      Eval(m, body, h2, frame, fuel - 1)
    case If(cond, thn, els) =>
      var o := Eval(m, cond, h, env, fuel - 1);
      if !o.r.Ok? then o
      else if !o.r.value.VBool? then Fail(NotABool, o.h)
      else Eval(m, if o.r.value.b then thn else els, o.h, env, fuel - 1)
  }

  /** `forceValue` on a cell: a thunk is a black hole while it runs, and remembers its
      value or its failure. */
  function Force(m: Mode, a: Addr, h: Heap, fuel: nat): Out<Value>
    decreases fuel
  {
    if fuel == 0 then Out(OutOfFuel, h)
    else if a >= |h.cells| then Fail(Crash, h)
    else
      match h.cells[a]
      case Done(v) => Out(Ok(v), h)
      case Failed(e) => Fail(e, h)
      case Blackhole => Fail(InfiniteRecursion, SetCell(h, a, Failed(InfiniteRecursion)))
      case Thunk(e, env) =>
        var o := Eval(m, e, SetCell(h, a, Blackhole), env, fuel - 1);
        match o.r
        case Ok(v) => Out(Ok(v), SetCell(o.h, a, Done(v)))
        case Err(x) => Out(Err(x), SetCell(o.h, a, Failed(x)))
        case OutOfFuel => o
  }

  function ForceAttrs(m: Mode, a: Addr, h: Heap, fuel: nat): Out<map<Symbol, Addr>>
    decreases fuel
  {
    if fuel == 0 then Out(OutOfFuel, h) else
    var o := Force(m, a, h, fuel - 1);
    if !o.r.Ok? then Cast(o)
    else if o.r.value.VAttrs? then Out(Ok(o.r.value.attrs), o.h)
    else Fail(NotASet, o.h)
  }

  /** `lookupVar`: the cell a variable denotes. */
  function LookupVar(m: Mode, id: NodeId, name: Symbol, h: Heap, env: EnvAddr, fuel: nat): Out<Addr>
    decreases fuel
  {
    if fuel == 0 then Out(OutOfFuel, h) else
    match FindSlot(m, id, name, h, env)
    case Slot(a) => Out(Ok(a), h)
    case EmptySlot => Fail(Crash, h)
    case Bad => Fail(Crash, h)
    case NotLexical =>
      match m
      case ByName =>
        (match NextWith(h, env)
         case None => Fail(UndefinedVar(name), h)
         case Some(w) => SearchWiths(m, name, w, h, fuel - 1))
      case ByIndex(notes) =>
        match WalkUp(h, env, notes.vars[id].level)
        case None => Fail(Crash, h)
        case Some(w) => FollowWiths(m, name, notes.vars[id].fromWith, w, h, fuel - 1)
  }

  /** By name: every `with` frame from `w` outwards, innermost first. */
  function SearchWiths(m: Mode, name: Symbol, w: EnvAddr, h: Heap, fuel: nat): Out<Addr>
    decreases fuel
  {
    if fuel == 0 then Out(OutOfFuel, h) else
    match ReadSlot(h, w, 0)
    case Slot(a) =>
      var o := ForceAttrs(m, a, h, fuel - 1);
      if !o.r.Ok? then Cast(o)
      else if name in o.r.value then Out(Ok(o.r.value[name]), o.h)
      else if w >= |o.h.envs| || o.h.envs[w].up.None? then Fail(UndefinedVar(name), o.h)
      else
        (match NextWith(o.h, o.h.envs[w].up.value)
         case None => Fail(UndefinedVar(name), o.h)
         case Some(next) => SearchWiths(m, name, next, o.h, fuel - 1))
    case _ => Fail(Crash, h)
  }

  /** By index: the `parentWith` chain, hopping `prevWith` frames at a time. */
  function FollowWiths(m: Mode, name: Symbol, node: Option<NodeId>, w: EnvAddr, h: Heap, fuel: nat): Out<Addr>
    requires m.ByIndex?
    decreases fuel
  {
    if fuel == 0 then Out(OutOfFuel, h) else
    match ReadSlot(h, w, 0)
    case Slot(a) =>
      var o := ForceAttrs(m, a, h, fuel - 1);
      if !o.r.Ok? then Cast(o)
      else if name in o.r.value then Out(Ok(o.r.value[name]), o.h)
      else if node.None? || node.value !in m.notes.withs then Fail(Crash, o.h)
      else
        var info := m.notes.withs[node.value];
        if info.parentWith.None? then Fail(UndefinedVar(name), o.h)
        else
          (match WalkUp(o.h, w, info.prevWith)
           case None => Fail(Crash, o.h)
           case Some(next) => FollowWiths(m, name, info.parentWith, next, o.h, fuel - 1))
    case _ => Fail(Crash, h)
  }

  /** `ExprSelect::eval` after the set itself: one name at a time, with the default for
      anything missing on the way. */
  function SelectPath(
      m: Mode, v: Value, path: seq<Symbol>, def: Option<Expr>, h: Heap, env: EnvAddr, fuel: nat): Out<Value>
    decreases fuel
  {
    if fuel == 0 then Out(OutOfFuel, h)
    else if path == [] then Out(Ok(v), h)
    else if v.VAttrs? && path[0] in v.attrs then
      var o := Force(m, v.attrs[path[0]], h, fuel - 1);
      if o.r.Ok? then SelectPath(m, o.r.value, path[1..], def, o.h, env, fuel - 1) else o
    else if def.Some? then Eval(m, def.value, h, env, fuel - 1)
    else if !v.VAttrs? then Fail(NotASet, h)
    else Fail(MissingAttr(path[0]), h)
  }

  function EvalRec(
      m: Mode, defs: seq<AttrDef>, from: seq<Expr>, dyn: seq<DynAttr>, h: Heap, env: EnvAddr, fuel: nat): Out<Value>
    decreases fuel
  {
    if fuel == 0 then Out(OutOfFuel, h) else
    var over := DefIndex(defs, OVERRIDES);
    var (frame, addrs, h1) := RecFrame(m, defs, from, over.Some?, h, env);
    var bindings := Zip(defs, addrs);
    if over.None? then
      AddDynamic(m, dyn, bindings, h1, frame, fuel - 1)
    else
      AfterOverrides(m, defs, dyn, bindings, addrs[over.value], h1, frame, fuel)
  }

  /** A recursive set from forcing its `__overrides`, held in cell `a`, on. */
  function AfterOverrides(
      m: Mode, defs: seq<AttrDef>, dyn: seq<DynAttr>, bindings: map<Symbol, Addr>, a: Addr, h: Heap, frame: EnvAddr,
      fuel: nat): Out<Value>
    requires fuel > 0
    decreases fuel, 0
  {
    var o := ForceAttrs(m, a, h, fuel - 1);
    if !o.r.Ok? then Cast(o)
    else AddDynamic(m, dyn, bindings + o.r.value, Override(defs, 0, o.r.value, o.h, frame), frame, fuel - 1)
  }

  /** Dynamic attributes, after `rec` and `__overrides`; a null name is skipped. */
  function AddDynamic(
      m: Mode, dyn: seq<DynAttr>, bindings: map<Symbol, Addr>, h: Heap, env: EnvAddr, fuel: nat): Out<Value>
    decreases fuel
  {
    if fuel == 0 then Out(OutOfFuel, h)
    else if dyn == [] then Out(Ok(VAttrs(bindings)), h)
    else
      var o := Eval(m, dyn[0].nameExpr, h, env, fuel - 1);
      if !o.r.Ok? then o
      else if o.r.value.VNull? then AddDynamic(m, dyn[1..], bindings, o.h, env, fuel - 1)
      else if !o.r.value.VStr? then Fail(BadAttrName, o.h)
      else if o.r.value.s in bindings then Fail(DuplicateAttr(o.r.value.s), o.h)
      else
        var (a, h1) := MaybeThunk(m, dyn[0].valueExpr, o.h, env);
        AddDynamic(m, dyn[1..], bindings[o.r.value.s := a], h1, env, fuel - 1)
  }

  /* Application */

  function ArgNames(arg: Option<Symbol>): seq<Symbol> {
    if arg.Some? then [arg.value] else []
  }

  function FormalNames(fs: seq<Formal>): (r: seq<Symbol>)
    ensures |r| == |fs|
  {
    seq(|fs|, i requires 0 <= i < |fs| => fs[i].name)
  }

  /** The slots of the formals from formal `i` on; `base` is the slot of the first. */
  function FillFormals(
      m: Mode, fs: seq<Formal>, i: nat, base: nat, actual: map<Symbol, Addr>, h: Heap, frame: EnvAddr): (o: Out<()>)
    requires i <= |fs|
    ensures !o.r.OutOfFuel?
    decreases |fs| - i
  {
    if i == |fs| then Out(Ok(()), h)
    else if fs[i].name in actual then
      FillFormals(m, fs, i + 1, base, actual, SetSlot(h, frame, base + i, actual[fs[i].name]), frame)
    else if fs[i].def.None? then Fail(MissingArgument(fs[i].name), h)
    else
      var (a, h1) := MaybeThunk(m, fs[i].def.value, h, frame);
      FillFormals(m, fs, i + 1, base, actual, SetSlot(h1, frame, base + i, a), frame)
  }

  function UsedArgs(fs: seq<Formal>, actual: map<Symbol, Addr>): nat {
    if fs == [] then 0 else (if fs[0].name in actual then 1 else 0) + UsedArgs(fs[1..], actual)
  }

  /** The frame of one application. It is reachable only once it is complete: it is
      allocated after the argument has been forced, and a failing application leaves no
      trace of it. */
  function ArgFrame(m: Mode, f: Value, x: Addr, h: Heap, fuel: nat): Out<EnvAddr>
    requires f.VLambda?
    decreases fuel
  {
    if fuel == 0 then Out(OutOfFuel, h)
    else if f.formals.None? then
      var (frame, h1) := NewEnv(m, h, Env(ArgNames(f.arg), false, if f.arg.Some? then [Some(x)] else [], Some(f.env)));
      Out(Ok(frame), h1)
    else
      var o := ForceAttrs(m, x, h, fuel - 1);
      if !o.r.Ok? then Cast(o)
      else
        var fs := f.formals.value.formals;
        var base := |ArgNames(f.arg)|;
        var slots := (if f.arg.Some? then [Some(x)] else []) + EmptySlots(|fs|);
        var (frame, h1) := NewEnv(m, o.h, Env(ArgNames(f.arg) + FormalNames(fs), false, slots, Some(f.env)));
        var o2 := FillFormals(m, fs, 0, base, o.r.value, h1, frame);
        if o2.r.Err? then Fail(o2.r.error, o.h)
        else if !f.formals.value.ellipsis && UsedArgs(fs, o.r.value) != |o.r.value| then Fail(UnexpectedArgument, o.h)
        else Out(Ok(frame), o2.h)
  }

  /** `callFunction` on lambdas and functors. */
  function CallFunction(m: Mode, f: Value, args: seq<Addr>, h: Heap, fuel: nat): Out<Value>
    decreases fuel
  {
    if fuel == 0 then Out(OutOfFuel, h)
    else if args == [] then Out(Ok(f), h)
    else if f.VLambda? then
      var o := ArgFrame(m, f, args[0], h, fuel - 1);
      if !o.r.Ok? then Cast(o)
      else
        var r := Eval(m, f.body, o.h, o.r.value, fuel - 1);
        if r.r.Ok? then CallFunction(m, r.r.value, args[1..], r.h, fuel - 1) else r
    else if f.VAttrs? && FUNCTOR in f.attrs then
      var (self, h1) := NewCell(h, Done(f));
      var o := Force(m, f.attrs[FUNCTOR], h1, fuel - 1);
      if !o.r.Ok? then o
      else
        var r := CallFunction(m, o.r.value, [self, args[0]], o.h, fuel - 1);
        if r.r.Ok? then CallFunction(m, r.r.value, args[1..], r.h, fuel - 1) else r
    else Fail(NotAFunction, h)
  }
}
