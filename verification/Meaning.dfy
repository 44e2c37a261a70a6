/** What expressions mean, as rules of inference.

    A claim says what comes of asking the evaluator something: the value or error, and the
    heap it leaves. A derivation is a tree of claims in which every claim follows from those
    below it by one of the rules. The rules do not mention the evaluator: frames are described
    by what they hold. Only its values, cells, frames and errors are shared. */
module Meaning {
  import opened Common
  import opened Syntax
  import opened Runtime

  datatype Ask =
    | Evaluate(e: Expr, h: Heap, env: EnvAddr)
    | ForceCell(a: Addr, h: Heap)
    /** A name that no frame binds, in the `with` frames at or above a frame. */
    | LookThrough(name: Symbol, h: Heap, env: EnvAddr)
    /** What is left of a selection path, from a value on. */
    | Descend(v: Value, path: seq<Symbol>, def: Option<Expr>, h: Heap, env: EnvAddr)
    /** What is left of the dynamic attributes of a set. */
    | Extend(dyn: seq<DynAttr>, bindings: map<Symbol, Addr>, h: Heap, env: EnvAddr)
    | Apply(f: Value, args: seq<Addr>, h: Heap)

  datatype Claim = Claim(ask: Ask, out: Out<Value>)

  datatype Deriv = Deriv(claim: Claim, premises: seq<Deriv>)

  function Claims(ds: seq<Deriv>): (cs: seq<Claim>)
    ensures |cs| == |ds|
  {
    seq(|ds|, i requires 0 <= i < |ds| => ds[i].claim)
  }

  /** A value, or an error of the program. */
  predicate Settled(o: Out<Value>) {
    o.r.Ok? || (o.r.Err? && o.r.error != Crash)
  }

  ghost predicate Valid(d: Deriv) {
    && Settled(d.claim.out) && Rule(d.claim, Claims(d.premises))
    && forall i :: 0 <= i < |d.premises| ==> Valid(d.premises[i])
  }

  /* Heaps */

  function WithCell(h: Heap, c: Cell): Heap {
    Heap(h.cells + [c], h.envs)
  }

  function WithFrame(h: Heap, f: Env): Heap {
    Heap(h.cells, h.envs + [f])
  }

  /** The heap with another content of cell `a`. */
  function Rewritten(h: Heap, a: Addr, c: Cell): Heap {
    Heap(seq(|h.cells|, i requires 0 <= i < |h.cells| => if i == a then c else h.cells[i]), h.envs)
  }

  /** The heap with slot `i` of frame `f` filled, if it is there. */
  function Filled(h: Heap, f: EnvAddr, i: nat, a: Addr): Heap {
    Heap(h.cells, seq(|h.envs|, e requires 0 <= e < |h.envs| =>
      if e == f then
        h.envs[e].(slots := seq(|h.envs[e].slots|, j requires 0 <= j < |h.envs[e].slots| =>
          if j == i then Some(a) else h.envs[e].slots[j]))
      else h.envs[e]))
  }

  predicate Holds(h: Heap, f: EnvAddr, i: nat, a: Addr) {
    f < |h.envs| && i < |h.envs[f].slots| && h.envs[f].slots[i] == Some(a)
  }

  /* Names */

  /** A frame and those above it, innermost first. */
  function Chain(h: Heap, env: EnvAddr): (c: seq<EnvAddr>)
    ensures forall k :: 0 <= k < |c| ==> c[k] < |h.envs|
    decreases env
  {
    if env >= |h.envs| then []
    else if h.envs[env].up.Some? && h.envs[env].up.value < env then [env] + Chain(h, h.envs[env].up.value)
    else [env]
  }

  /** The chain ends at a frame without a parent. */
  predicate Rooted(h: Heap, env: EnvAddr) {
    var c := Chain(h, env);
    c != [] && h.envs[c[|c| - 1]].up.None?
  }

  predicate Binds(f: Env, name: Symbol) {
    !f.isWith && name in f.names
  }

  /** The innermost frame that binds the name is `f`, at slot `i`. */
  ghost predicate BoundAt(h: Heap, env: EnvAddr, name: Symbol, f: EnvAddr, i: nat) {
    exists k :: NearestAt(h, env, name, k) && Chain(h, env)[k] == f && FirstAt(h.envs[f].names, name, i)
  }

  ghost predicate NearestAt(h: Heap, env: EnvAddr, name: Symbol, k: int) {
    var c := Chain(h, env);
    && 0 <= k < |c| && Binds(h.envs[c[k]], name)
    && forall j :: 0 <= j < k ==> !Binds(h.envs[c[j]], name)
  }

  ghost predicate FirstAt(names: seq<Symbol>, name: Symbol, i: nat) {
    i < |names| && names[i] == name && forall j :: 0 <= j < i ==> names[j] != name
  }

  ghost predicate Unbound(h: Heap, env: EnvAddr, name: Symbol) {
    Rooted(h, env) && forall k :: 0 <= k < |Chain(h, env)| ==> !Binds(h.envs[Chain(h, env)[k]], name)
  }

  /** The innermost `with` frame. */
  ghost predicate InnermostWith(h: Heap, env: EnvAddr, w: EnvAddr) {
    exists k :: InnermostWithAt(h, env, k) && Chain(h, env)[k] == w
  }

  ghost predicate InnermostWithAt(h: Heap, env: EnvAddr, k: int) {
    var c := Chain(h, env);
    0 <= k < |c| && h.envs[c[k]].isWith && forall j :: 0 <= j < k ==> !h.envs[c[j]].isWith
  }

  ghost predicate NoWith(h: Heap, env: EnvAddr) {
    forall k :: 0 <= k < |Chain(h, env)| ==> !h.envs[Chain(h, env)[k]].isWith
  }

  /* Delaying */

  /** The expression is a reference whose slot is filled: its cell is used as it is. */
  ghost predicate Shares(e: Expr, h: Heap, env: EnvAddr, a: Addr) {
    || (e.Var? && exists f, i :: BoundAt(h, env, e.name, f, i) && Holds(h, f, i, a))
    || (e.InheritFrom? && Holds(h, env, e.own, a))
  }

  /** A literal is a value at once; anything else waits in its frame. */
  function Pending(e: Expr, env: EnvAddr): Cell {
    match e
    case Int(n) => Done(VInt(n))
    case Str(s) => Done(VStr(s))
    case _ => Thunk(e, env)
  }

  ghost predicate Delayed(e: Expr, h: Heap, env: EnvAddr, a: Addr, h1: Heap) {
    || (Shares(e, h, env, a) && h1 == h)
    || ((forall b :: !Shares(e, h, env, b)) && a == |h.cells| && h1 == WithCell(h, Pending(e, env)))
  }

  /** One after the other, in one frame. */
  ghost predicate AllDelayed(es: seq<Expr>, h: Heap, env: EnvAddr, addrs: seq<Addr>, h1: Heap) {
    exists hs: seq<Heap> :: DelayedThrough(es, env, addrs, hs) && hs[0] == h && hs[|es|] == h1
  }

  ghost predicate DelayedThrough(es: seq<Expr>, env: EnvAddr, addrs: seq<Addr>, hs: seq<Heap>) {
    && |addrs| == |es| && |hs| == |es| + 1
    && forall i :: 0 <= i < |es| ==> Delayed(es[i], hs[i], env, addrs[i], hs[i + 1])
  }

  function AllFilled(addrs: seq<Addr>): seq<Option<Addr>> {
    seq(|addrs|, i requires 0 <= i < |addrs| => Some(addrs[i]))
  }

  /** The sources of `inherit (from)` in a frame of their own, if there are any. */
  ghost predicate SourcesDelayed(from: seq<Expr>, h: Heap, up: EnvAddr, source: EnvAddr, h1: Heap) {
    if from == [] then source == up && h1 == h
    else
      exists addrs, h0 ::
        && AllDelayed(from, h, up, addrs, h0) && source == |h0.envs|
        && h1 == WithFrame(h0, Env([], false, AllFilled(addrs), Some(up)))
  }

  /* Definitions */

  function FrameFor(d: AttrDef, plain: EnvAddr, inherited: EnvAddr, source: EnvAddr): EnvAddr {
    match d.kind
    case Plain => plain
    case Inherited => inherited
    case InheritedFrom => source
  }

  /** A definition gets its cell: a new one that waits, when sharing is not allowed and it is
      not inherited from the outside. */
  ghost predicate DefDelayed(
      d: AttrDef, alone: bool, h: Heap, plain: EnvAddr, inherited: EnvAddr, source: EnvAddr, a: Addr, h1: Heap)
  {
    var env := FrameFor(d, plain, inherited, source);
    if alone && !d.kind.Inherited? then a == |h.cells| && h1 == WithCell(h, Thunk(d.e, env))
    else Delayed(d.e, h, env, a, h1)
  }

  /** The definitions in turn; with `fill`, each fills its slot of the set's own frame before
      the next one is looked at. */
  ghost predicate DefsDelayed(
      defs: seq<AttrDef>, alone: bool, fill: bool, h: Heap, plain: EnvAddr, inherited: EnvAddr, source: EnvAddr,
      addrs: seq<Addr>, h1: Heap)
  {
    exists hs: seq<Heap> ::
      DefsThrough(defs, alone, fill, plain, inherited, source, addrs, hs) && hs[0] == h && hs[|defs|] == h1
  }

  ghost predicate DefsThrough(
      defs: seq<AttrDef>, alone: bool, fill: bool, plain: EnvAddr, inherited: EnvAddr, source: EnvAddr,
      addrs: seq<Addr>, hs: seq<Heap>)
  {
    && |addrs| == |defs| && |hs| == |defs| + 1
    && forall i :: 0 <= i < |defs| ==>
         DefStep(defs[i], i, alone, fill, hs[i], plain, inherited, source, addrs[i], hs[i + 1])
  }

  ghost predicate DefStep(
      d: AttrDef, i: nat, alone: bool, fill: bool, h: Heap, plain: EnvAddr, inherited: EnvAddr, source: EnvAddr,
      a: Addr, h1: Heap)
  {
    exists mid ::
      DefDelayed(d, alone, h, plain, inherited, source, a, mid) && h1 == if fill then Filled(mid, plain, i, a) else mid
  }

  function DefNamesOf(defs: seq<AttrDef>): (names: seq<Symbol>)
    ensures |names| == |defs|
  {
    seq(|defs|, i requires 0 <= i < |defs| => defs[i].name)
  }

  /** The frame of a `let` or recursive set: names in order, every definition in its slot, in
      scope of each other; inherited ones see the frame outside, sources the frame itself. */
  ghost predicate FrameBuilt(
      defs: seq<AttrDef>, from: seq<Expr>, alone: bool, h: Heap, env: EnvAddr, addrs: seq<Addr>, h1: Heap)
  {
    var frame := |h.envs|;
    var empty := WithFrame(h, Env(DefNamesOf(defs), false, seq(|defs|, i => None), Some(env)));
    exists source, h0 ::
      && SourcesDelayed(from, empty, frame, source, h0)
      && DefsDelayed(defs, alone, true, h0, frame, env, source, addrs, h1)
  }

  /** The attributes are the definitions, each name with the cell of its first one. */
  ghost predicate Bindings(defs: seq<AttrDef>, addrs: seq<Addr>, m: map<Symbol, Addr>) {
    && |defs| == |addrs|
    && (forall x :: x in m <==> x in DefNamesOf(defs))
    && forall i :: 0 <= i < |defs| && FirstAt(DefNamesOf(defs), defs[i].name, i) ==>
         defs[i].name in m && m[defs[i].name] == addrs[i]
  }

  /** The slots of the names that are overridden, and no others, are replaced. */
  ghost predicate Overridden(defs: seq<AttrDef>, over: map<Symbol, Addr>, frame: EnvAddr, h: Heap, h1: Heap) {
    && h1.cells == h.cells && |h1.envs| == |h.envs|
    && (forall f :: 0 <= f < |h.envs| && f != frame ==> h1.envs[f] == h.envs[f])
    && (frame < |h.envs| ==>
          var before, after := h.envs[frame], h1.envs[frame];
          && after == before.(slots := after.slots) && |after.slots| == |before.slots|
          && forall i :: 0 <= i < |before.slots| ==>
               after.slots[i] ==
                 if i < |defs| && defs[i].name in over then Some(over[defs[i].name]) else before.slots[i])
  }

  /* Formals */

  /** A formal takes the argument's attribute if there is one, and else its default, which is
      delayed in the frame of the call. */
  ghost predicate FormalStep(f: Formal, slot: nat, actual: map<Symbol, Addr>, h: Heap, frame: EnvAddr, h1: Heap) {
    if f.name in actual then h1 == Filled(h, frame, slot, actual[f.name])
    else
      f.def.Some? && exists a, mid :: Delayed(f.def.value, h, frame, a, mid) && h1 == Filled(mid, frame, slot, a)
  }

  ghost predicate FormalsFilled(
      fs: seq<Formal>, base: nat, actual: map<Symbol, Addr>, h: Heap, frame: EnvAddr, h1: Heap)
  {
    exists hs: seq<Heap> :: FormalsThrough(fs, base, actual, frame, hs) && hs[0] == h && hs[|fs|] == h1
  }

  ghost predicate FormalsThrough(
      fs: seq<Formal>, base: nat, actual: map<Symbol, Addr>, frame: EnvAddr, hs: seq<Heap>)
  {
    |hs| == |fs| + 1 && forall i :: 0 <= i < |fs| ==> FormalStep(fs[i], base + i, actual, hs[i], frame, hs[i + 1])
  }

  /** The first formal with neither an argument nor a default. */
  ghost predicate MissingAt(fs: seq<Formal>, actual: map<Symbol, Addr>, k: nat) {
    && k < |fs| && fs[k].name !in actual && fs[k].def.None?
    && forall j :: 0 <= j < k ==> fs[j].name in actual || fs[j].def.Some?
  }

  ghost predicate NoneMissing(fs: seq<Formal>, actual: map<Symbol, Addr>) {
    forall j :: 0 <= j < |fs| ==> fs[j].name in actual || fs[j].def.Some?
  }

  /** The argument has other attributes than the formals, counting each formal once. */
  ghost predicate TooMany(formals: Formals, actual: map<Symbol, Addr>) {
    !formals.ellipsis && |set j | 0 <= j < |formals.formals| && formals.formals[j].name in actual| != |actual|
  }

  function NameOf(arg: Option<Symbol>): seq<Symbol> {
    if arg.Some? then [arg.value] else []
  }

  function SlotOf(arg: Option<Symbol>, x: Addr): seq<Option<Addr>> {
    if arg.Some? then [Some(x)] else []
  }

  /** The frame of a call before its formals are filled. */
  function CallFrame(f: Value, fs: seq<Formal>, x: Addr): Env
    requires f.VLambda?
  {
    Env(NameOf(f.arg) + seq(|fs|, i requires 0 <= i < |fs| => fs[i].name), false,
        SlotOf(f.arg, x) + seq(|fs|, i => None), Some(f.env))
  }

  /* The rules */

  /** The last premise has the outcome of the conclusion. */
  predicate EndsIn(ps: seq<Claim>, n: nat, ask: Ask, out: Out<Value>) {
    |ps| == n + 1 && ps[n] == Claim(ask, out)
  }

  function Fails(error: Error, h: Heap): Out<Value> {
    Out(Err(error), h)
  }

  ghost predicate Rule(c: Claim, ps: seq<Claim>) {
    match c.ask
    case Evaluate(e, h, env) => EvaluateRule(e, h, env, c.out, ps)
    case ForceCell(a, h) => ForceRule(a, h, c.out, ps)
    case LookThrough(name, h, env) => WithRule(name, h, env, c.out, ps)
    case Descend(v, path, def, h, env) => SelectRule(v, path, def, h, env, c.out, ps)
    case Extend(dyn, bindings, h, env) => DynamicRule(dyn, bindings, h, env, c.out, ps)
    case Apply(f, args, h) => ApplyRule(f, args, h, c.out, ps)
  }

  ghost predicate EvaluateRule(e: Expr, h: Heap, env: EnvAddr, out: Out<Value>, ps: seq<Claim>) {
    match e
    case Int(n) => ps == [] && out == Out(Ok(VInt(n)), h)
    case Str(s) => ps == [] && out == Out(Ok(VStr(s)), h)
    case Null => ps == [] && out == Out(Ok(VNull), h)
    case Lambda(arg, formals, body) => ps == [] && out == Out(Ok(VLambda(arg, formals, body, env)), h)
    case List(elems) =>
      ps == [] && exists addrs, h1 :: AllDelayed(elems, h, env, addrs, h1) && out == Out(Ok(VList(addrs)), h1)
    case Var(_, name) =>
      || (exists f, i, a :: BoundAt(h, env, name, f, i) && Holds(h, f, i, a) && EndsIn(ps, 0, ForceCell(a, h), out))
      || (Unbound(h, env, name) && EndsIn(ps, 0, LookThrough(name, h, env), out))
    case InheritFrom(_, own) =>
      exists a :: Holds(h, env, own, a) && EndsIn(ps, 0, ForceCell(a, h), out)
    case Select(s, path, def) =>
      && |ps| > 0 && ps[0].ask == Evaluate(s, h, env)
      && var o := ps[0].out;
         if o.r.Ok? then EndsIn(ps, 1, Descend(o.r.value, path, def, o.h, env), out) else |ps| == 1 && out == o
    case Attrs(recursive, defs, from, dyn) =>
      if recursive then RecRule(defs, from, dyn, h, env, out, ps)
      else
        exists source, h0, addrs, h1, m ::
          && SourcesDelayed(from, h, env, source, h0)
          && DefsDelayed(defs, false, false, h0, env, env, source, addrs, h1)
          && Bindings(defs, addrs, m) && EndsIn(ps, 0, Extend(dyn, m, h1, env), out)
    case Call(fun, args) =>
      && |ps| > 0 && ps[0].ask == Evaluate(fun, h, env)
      && var o := ps[0].out;
         if o.r.Ok? then
           exists addrs, h1 :: AllDelayed(args, o.h, env, addrs, h1) && EndsIn(ps, 1, Apply(o.r.value, addrs, h1), out)
         else |ps| == 1 && out == o
    case Let(defs, from, body) =>
      exists addrs, h1 ::
        FrameBuilt(defs, from, false, h, env, addrs, h1) && EndsIn(ps, 0, Evaluate(body, h1, |h.envs|), out)
    case With(_, attrs, body) =>
      exists a, h1 ::
        && Delayed(attrs, h, env, a, h1)
        && EndsIn(ps, 0, Evaluate(body, WithFrame(h1, Env([], true, [Some(a)], Some(env))), |h1.envs|), out)
    case If(cond, thn, els) =>
      && |ps| > 0 && ps[0].ask == Evaluate(cond, h, env)
      && var o := ps[0].out;
         if !o.r.Ok? then |ps| == 1 && out == o
         else if o.r.value == VBool(true) then EndsIn(ps, 1, Evaluate(thn, o.h, env), out)
         else if o.r.value == VBool(false) then EndsIn(ps, 1, Evaluate(els, o.h, env), out)
         else |ps| == 1 && out == Fails(NotABool, o.h)
  }

  /** A recursive set: with `__overrides` among its definitions, no cell is shared, that
      definition is forced, and the names it has take the place of definitions. */
  ghost predicate RecRule(
      defs: seq<AttrDef>, from: seq<Expr>, dyn: seq<DynAttr>, h: Heap, env: EnvAddr, out: Out<Value>, ps: seq<Claim>)
  {
    var names, frame := DefNamesOf(defs), |h.envs|;
    exists addrs, h1, m ::
      && FrameBuilt(defs, from, OVERRIDES in names, h, env, addrs, h1) && Bindings(defs, addrs, m)
      && if OVERRIDES !in names then EndsIn(ps, 0, Extend(dyn, m, h1, frame), out)
         else OverridesRule(defs, dyn, m, h1, frame, out, ps)
  }

  ghost predicate OverridesRule(
      defs: seq<AttrDef>, dyn: seq<DynAttr>, m: map<Symbol, Addr>, h: Heap, frame: EnvAddr, out: Out<Value>,
      ps: seq<Claim>)
  {
    && OVERRIDES in m && |ps| > 0 && ps[0].ask == ForceCell(m[OVERRIDES], h)
    && var o := ps[0].out;
       if !o.r.Ok? then |ps| == 1 && out == o
       else if !o.r.value.VAttrs? then |ps| == 1 && out == Fails(NotASet, o.h)
       else
         exists h1 ::
           && Overridden(defs, o.r.value.attrs, frame, o.h, h1)
           && EndsIn(ps, 1, Extend(dyn, m + o.r.value.attrs, h1, frame), out)
  }

  /** A cell that waits is a black hole while it is evaluated, and keeps what came of it. */
  ghost predicate ForceRule(a: Addr, h: Heap, out: Out<Value>, ps: seq<Claim>) {
    && a < |h.cells|
    && match h.cells[a]
       case Done(v) => ps == [] && out == Out(Ok(v), h)
       case Failed(error) => ps == [] && out == Fails(error, h)
       case Blackhole => ps == [] && out == Fails(InfiniteRecursion, Rewritten(h, a, Failed(InfiniteRecursion)))
       case Thunk(e, env) =>
         && |ps| == 1 && ps[0].ask == Evaluate(e, Rewritten(h, a, Blackhole), env)
         && var o := ps[0].out;
            if o.r.Ok? then out == Out(o.r, Rewritten(o.h, a, Done(o.r.value)))
            else o.r.Err? && out == Out(o.r, Rewritten(o.h, a, Failed(o.r.error)))
  }

  /** The innermost `with` frame first; only if its set lacks the name the next one outwards. */
  ghost predicate WithRule(name: Symbol, h: Heap, env: EnvAddr, out: Out<Value>, ps: seq<Claim>) {
    || (NoWith(h, env) && ps == [] && out == Fails(UndefinedVar(name), h))
    || exists w: nat, a: nat ::
         && InnermostWith(h, env, w) && Holds(h, w, 0, a)
         && |ps| > 0 && ps[0].ask == ForceCell(a, h)
         && var o := ps[0].out;
            if !o.r.Ok? then |ps| == 1 && out == o
            else if !o.r.value.VAttrs? then |ps| == 1 && out == Fails(NotASet, o.h)
            else if name in o.r.value.attrs then EndsIn(ps, 1, ForceCell(o.r.value.attrs[name], o.h), out)
            else if w < |o.h.envs| && o.h.envs[w].up.Some? then
              EndsIn(ps, 1, LookThrough(name, o.h, o.h.envs[w].up.value), out)
            else |ps| == 1 && out == Fails(UndefinedVar(name), o.h)
  }

  /** One name at a time; the default stands in for what is missing on the way. */
  ghost predicate SelectRule(
      v: Value, path: seq<Symbol>, def: Option<Expr>, h: Heap, env: EnvAddr, out: Out<Value>, ps: seq<Claim>)
  {
    if path == [] then ps == [] && out == Out(Ok(v), h)
    else if v.VAttrs? && path[0] in v.attrs then
      && |ps| > 0 && ps[0].ask == ForceCell(v.attrs[path[0]], h)
      && var o := ps[0].out;
         if o.r.Ok? then EndsIn(ps, 1, Descend(o.r.value, path[1..], def, o.h, env), out) else |ps| == 1 && out == o
    else if def.Some? then EndsIn(ps, 0, Evaluate(def.value, h, env), out)
    else ps == [] && out == Fails(if v.VAttrs? then MissingAttr(path[0]) else NotASet, h)
  }

  /** A null name is skipped, any other must be a string that names no attribute yet. */
  ghost predicate DynamicRule(
      dyn: seq<DynAttr>, bindings: map<Symbol, Addr>, h: Heap, env: EnvAddr, out: Out<Value>, ps: seq<Claim>)
  {
    if dyn == [] then ps == [] && out == Out(Ok(VAttrs(bindings)), h)
    else
      && |ps| > 0 && ps[0].ask == Evaluate(dyn[0].nameExpr, h, env)
      && var o := ps[0].out;
         if !o.r.Ok? then |ps| == 1 && out == o
         else if o.r.value.VNull? then EndsIn(ps, 1, Extend(dyn[1..], bindings, o.h, env), out)
         else if !o.r.value.VStr? then |ps| == 1 && out == Fails(BadAttrName, o.h)
         else if o.r.value.s in bindings then |ps| == 1 && out == Fails(DuplicateAttr(o.r.value.s), o.h)
         else
           exists a, h1 ::
             && Delayed(dyn[0].valueExpr, o.h, env, a, h1)
             && EndsIn(ps, 1, Extend(dyn[1..], bindings[o.r.value.s := a], h1, env), out)
  }

  /** Arguments are taken one at a time. */
  ghost predicate ApplyRule(f: Value, args: seq<Addr>, h: Heap, out: Out<Value>, ps: seq<Claim>) {
    if args == [] then ps == [] && out == Out(Ok(f), h)
    else if f.VLambda? && f.formals.None? then
      BodyRule(f, args, WithFrame(h, CallFrame(f, [], args[0])), |h.envs|, 0, out, ps)
    else if f.VLambda? then FormalsRule(f, args, h, out, ps)
    else if f.VAttrs? && FUNCTOR in f.attrs then FunctorRule(f, args, h, out, ps)
    else ps == [] && out == Fails(NotAFunction, h)
  }

  /** The body in the frame of the call, and then what is left of the arguments. */
  ghost predicate BodyRule(
      f: Value, args: seq<Addr>, h: Heap, frame: EnvAddr, n: nat, out: Out<Value>, ps: seq<Claim>)
    requires f.VLambda? && args != []
  {
    && |ps| > n && ps[n].ask == Evaluate(f.body, h, frame)
    && var o := ps[n].out;
       if o.r.Ok? then EndsIn(ps, n + 1, Apply(o.r.value, args[1..], o.h), out) else |ps| == n + 1 && out == o
  }

  /** The argument must be a set; missing and unexpected attributes are errors, in this order. */
  ghost predicate FormalsRule(f: Value, args: seq<Addr>, h: Heap, out: Out<Value>, ps: seq<Claim>)
    requires f.VLambda? && f.formals.Some? && args != []
  {
    && |ps| > 0 && ps[0].ask == ForceCell(args[0], h)
    && var o := ps[0].out;
       if !o.r.Ok? then |ps| == 1 && out == o
       else if !o.r.value.VAttrs? then |ps| == 1 && out == Fails(NotASet, o.h)
       else
         var fs, actual := f.formals.value.formals, o.r.value.attrs;
         || (exists k: nat :: MissingAt(fs, actual, k) && |ps| == 1 && out == Fails(MissingArgument(fs[k].name), o.h))
         || (NoneMissing(fs, actual) && TooMany(f.formals.value, actual)
             && |ps| == 1 && out == Fails(UnexpectedArgument, o.h))
         || (NoneMissing(fs, actual) && !TooMany(f.formals.value, actual)
             && exists h1 ::
                  && FormalsFilled(
                       fs, |NameOf(f.arg)|, actual, WithFrame(o.h, CallFrame(f, fs, args[0])), |o.h.envs|, h1)
                  && BodyRule(f, args, h1, |o.h.envs|, 1, out, ps))
  }

  /** `__functor` is applied to the set itself, in a cell of its own, and then to the argument. */
  ghost predicate FunctorRule(f: Value, args: seq<Addr>, h: Heap, out: Out<Value>, ps: seq<Claim>)
    requires f.VAttrs? && FUNCTOR in f.attrs && args != []
  {
    var h1 := WithCell(h, Done(f));
    && |ps| > 0 && ps[0].ask == ForceCell(f.attrs[FUNCTOR], h1)
    && var o := ps[0].out;
       if !o.r.Ok? then |ps| == 1 && out == o
       else
         && |ps| > 1 && ps[1].ask == Apply(o.r.value, [|h.cells|, args[0]], o.h)
         && var o2 := ps[1].out;
            if o2.r.Ok? then EndsIn(ps, 2, Apply(o2.r.value, args[1..], o2.h), out) else |ps| == 2 && out == o2
  }
}
