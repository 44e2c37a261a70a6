/** The evaluator that looks names up computes exactly what the rules allow: a value or an error of
    the program is what an expression comes to, with some fuel, if and only if it has a
    derivation. */
module Adequacy {
  import opened Common
  import opened Syntax
  import opened Runtime
  import opened Meaning
  import opened MeaningFrames

  /* What the evaluator answers */

  /** The search through the `with` frames, and then the cell it finds. */
  function Through(name: Symbol, h: Heap, env: EnvAddr, s: nat, g: nat): Out<Value> {
    if s == 0 then Out(OutOfFuel, h) else
    match NextWith(h, env)
    case None => Fail(UndefinedVar(name), h)
    case Some(w) =>
      var o := SearchWiths(ByName, name, w, h, s - 1);
      if o.r.Ok? then Force(ByName, o.r.value, o.h, g) else Cast(o)
  }

  /** The answer with fuel `s`; `g` is the fuel for the cell that a search has found. */
  function Answer(q: Ask, s: nat, g: nat): Out<Value> {
    match q
    case Evaluate(e, h, env) => Eval(ByName, e, h, env, s)
    case ForceCell(a, h) => Force(ByName, a, h, s)
    case LookThrough(name, h, env) => Through(name, h, env, s, g)
    case Descend(v, path, def, h, env) => SelectPath(ByName, v, path, def, h, env, s)
    case Extend(dyn, bindings, h, env) => AddDynamic(ByName, dyn, bindings, h, env, s)
    case Apply(f, args, h) => CallFunction(ByName, f, args, h, s)
  }

  /** The claim is the answer with less fuel. */
  ghost predicate Below(c: Claim, fuel: nat) {
    Settled(c.out) && exists f: nat :: f < fuel && Answer(c.ask, f, f) == c.out
  }

  ghost predicate AllBelow(ps: seq<Claim>, fuel: nat) {
    forall i :: 0 <= i < |ps| ==> Below(ps[i], fuel)
  }

  /** The claim is the answer with all fuel from `n` on. */
  ghost predicate From(c: Claim, n: nat) {
    Settled(c.out) && forall s: nat, g: nat :: n <= s && n <= g ==> Answer(c.ask, s, g) == c.out
  }

  ghost predicate AllFrom(ps: seq<Claim>, n: nat) {
    forall i :: 0 <= i < |ps| ==> From(ps[i], n)
  }

  /* From answers to rules */

  lemma {:induction false} IsBelow(q: Ask, f: nat, fuel: nat)
    requires f < fuel && Settled(Answer(q, f, f))
    ensures Below(Claim(q, Answer(q, f, f)), fuel)
  {
  }

  lemma {:induction false} BackIf(e: Expr, h: Heap, env: EnvAddr, fuel: nat) returns (ps: seq<Claim>)
    requires e.If? && fuel > 0 && Settled(Eval(ByName, e, h, env, fuel))
    ensures EvaluateRule(e, h, env, Eval(ByName, e, h, env, fuel), ps) && AllBelow(ps, fuel)
  {
    var q := Evaluate(e.cond, h, env);
    var o := Answer(q, fuel - 1, fuel - 1);
    IsBelow(q, fuel - 1, fuel);
    ps := [Claim(q, o)];
    if o.r.Ok? && o.r.value.VBool? {
      var q1 := Evaluate(if o.r.value.b then e.thn else e.els, o.h, env);
      IsBelow(q1, fuel - 1, fuel);
      ps := ps + [Claim(q1, Answer(q1, fuel - 1, fuel - 1))];
    }
  }

  lemma {:induction false} BackSelect(e: Expr, h: Heap, env: EnvAddr, fuel: nat) returns (ps: seq<Claim>)
    requires e.Select? && fuel > 0 && Settled(Eval(ByName, e, h, env, fuel))
    ensures EvaluateRule(e, h, env, Eval(ByName, e, h, env, fuel), ps) && AllBelow(ps, fuel)
  {
    var q := Evaluate(e.e, h, env);
    var o := Answer(q, fuel - 1, fuel - 1);
    IsBelow(q, fuel - 1, fuel);
    ps := [Claim(q, o)];
    if o.r.Ok? {
      var q1 := Descend(o.r.value, e.path, e.def, o.h, env);
      IsBelow(q1, fuel - 1, fuel);
      ps := ps + [Claim(q1, Answer(q1, fuel - 1, fuel - 1))];
    }
  }

  lemma {:induction false} BackCall(e: Expr, h: Heap, env: EnvAddr, fuel: nat) returns (ps: seq<Claim>)
    requires e.Call? && fuel > 0 && Settled(Eval(ByName, e, h, env, fuel))
    ensures EvaluateRule(e, h, env, Eval(ByName, e, h, env, fuel), ps) && AllBelow(ps, fuel)
  {
    hide AllDelayed, MaybeThunkAll;
    var q := Evaluate(e.fun, h, env);
    var o := Answer(q, fuel - 1, fuel - 1);
    IsBelow(q, fuel - 1, fuel);
    ps := [Claim(q, o)];
    if o.r.Ok? {
      var (addrs, h1) := MaybeThunkAll(ByName, e.args, o.h, env);
      AllDelayedExactly(e.args, o.h, env, addrs, h1);
      var q1 := Apply(o.r.value, addrs, h1);
      IsBelow(q1, fuel - 1, fuel);
      ps := ps + [Claim(q1, Answer(q1, fuel - 1, fuel - 1))];
    }
  }

  lemma {:induction false} BackLet(e: Expr, h: Heap, env: EnvAddr, fuel: nat) returns (ps: seq<Claim>)
    requires e.Let? && fuel > 0 && Settled(Eval(ByName, e, h, env, fuel))
    ensures EvaluateRule(e, h, env, Eval(ByName, e, h, env, fuel), ps) && AllBelow(ps, fuel)
  {
    hide FrameBuilt, RecFrame;
    var (frame, addrs, h1) := RecFrame(ByName, e.defs, e.from, false, h, env);
    FrameAddr(e.defs, e.from, false, h, env);
    FrameExactly(e.defs, e.from, false, h, env, addrs, h1);
    var q := Evaluate(e.body, h1, frame);
    IsBelow(q, fuel - 1, fuel);
    ps := [Claim(q, Answer(q, fuel - 1, fuel - 1))];
  }

  lemma FrameAddr(defs: seq<AttrDef>, from: seq<Expr>, alone: bool, h: Heap, env: EnvAddr)
    ensures RecFrame(ByName, defs, from, alone, h, env).0 == |h.envs|
  {
    hide SourceFrame, FillDefs;
  }

  lemma {:induction false} BackWith(e: Expr, h: Heap, env: EnvAddr, fuel: nat) returns (ps: seq<Claim>)
    requires e.With? && fuel > 0 && Settled(Eval(ByName, e, h, env, fuel))
    ensures EvaluateRule(e, h, env, Eval(ByName, e, h, env, fuel), ps) && AllBelow(ps, fuel)
  {
    hide Delayed, MaybeThunk;
    var (a, h1) := MaybeThunk(ByName, e.attrs, h, env);
    DelayedExactly(e.attrs, h, env, a, h1);
    var q := Evaluate(e.body, WithFrame(h1, Env([], true, [Some(a)], Some(env))), |h1.envs|);
    IsBelow(q, fuel - 1, fuel);
    ps := [Claim(q, Answer(q, fuel - 1, fuel - 1))];
  }

  lemma {:induction false} BackVar(e: Expr, h: Heap, env: EnvAddr, fuel: nat) returns (ps: seq<Claim>)
    requires e.Var? && fuel > 0 && Settled(Eval(ByName, e, h, env, fuel))
    ensures EvaluateRule(e, h, env, Eval(ByName, e, h, env, fuel), ps) && AllBelow(ps, fuel)
  {
    hide NameSlot, NextWith, SearchWiths, Force, Unbound, BoundAt, Holds;
    var slot := NameSlot(h, env, e.name);
    NameSlotExact(h, env, e.name, if slot.Slot? then slot.a else 0);
    var q := if slot.Slot? then ForceCell(slot.a, h) else LookThrough(e.name, h, env);
    assert Eval(ByName, e, h, env, fuel) == Answer(q, fuel - 1, fuel - 1);
    IsBelow(q, fuel - 1, fuel);
    ps := [Claim(q, Answer(q, fuel - 1, fuel - 1))];
  }

  lemma {:induction false} BackInherit(e: Expr, h: Heap, env: EnvAddr, fuel: nat) returns (ps: seq<Claim>)
    requires e.InheritFrom? && fuel > 0 && Settled(Eval(ByName, e, h, env, fuel))
    ensures EvaluateRule(e, h, env, Eval(ByName, e, h, env, fuel), ps) && AllBelow(ps, fuel)
  {
    var slot := ReadSlot(h, env, e.own);
    var q := ForceCell(slot.a, h);
    IsBelow(q, fuel - 1, fuel);
    ps := [Claim(q, Answer(q, fuel - 1, fuel - 1))];
  }

  lemma {:induction false} BackAttrs(e: Expr, h: Heap, env: EnvAddr, fuel: nat) returns (ps: seq<Claim>)
    requires e.Attrs? && !e.recursive && fuel > 0 && Settled(Eval(ByName, e, h, env, fuel))
    ensures EvaluateRule(e, h, env, Eval(ByName, e, h, env, fuel), ps) && AllBelow(ps, fuel)
  {
    hide SourcesDelayed, DefsDelayed, Bindings, Zip, PlainDefs, SourceFrame;
    var (source, h1) := SourceFrame(ByName, e.from, h, env);
    var (addrs, h2) := PlainDefs(ByName, e.defs, h1, env, source);
    var m := Zip(e.defs, addrs);
    SourcesExactly(e.from, h, env, source, h1);
    PlainDefsExactly(e.defs, h1, env, source, addrs, h2);
    ZipExactly(e.defs, addrs, m);
    var q := Extend(e.dyn, m, h2, env);
    IsBelow(q, fuel - 1, fuel);
    ps := [Claim(q, Answer(q, fuel - 1, fuel - 1))];
  }

  lemma {:induction false} BackRec(
      defs: seq<AttrDef>, from: seq<Expr>, dyn: seq<DynAttr>, h: Heap, env: EnvAddr, fuel: nat)
    returns (ps: seq<Claim>)
    requires Settled(EvalRec(ByName, defs, from, dyn, h, env, fuel))
    ensures RecRule(defs, from, dyn, h, env, EvalRec(ByName, defs, from, dyn, h, env, fuel), ps) && AllBelow(ps, fuel)
  {
    hide FrameBuilt, RecFrame, Bindings, Zip, OverridesRule, AfterOverrides, DefIndex;
    var over := DefIndex(defs, OVERRIDES);
    var (frame, addrs, h1) := RecFrame(ByName, defs, from, over.Some?, h, env);
    var m := Zip(defs, addrs);
    FrameAddr(defs, from, over.Some?, h, env);
    FrameExactly(defs, from, over.Some?, h, env, addrs, h1);
    ZipExactly(defs, addrs, m);
    DefIndexExactly(defs, OVERRIDES);
    if over.None? {
      var q := Extend(dyn, m, h1, frame);
      IsBelow(q, fuel - 1, fuel);
      ps := [Claim(q, Answer(q, fuel - 1, fuel - 1))];
    } else {
      DefOfName(defs, addrs, OVERRIDES);
      ps := BackOverrides(defs, dyn, m, h1, frame, fuel);
    }
  }

  lemma {:induction false} BackOverrides(
      defs: seq<AttrDef>, dyn: seq<DynAttr>, m: map<Symbol, Addr>, h: Heap, frame: EnvAddr, fuel: nat)
    returns (ps: seq<Claim>)
    requires fuel > 0 && OVERRIDES in m
    requires Settled(AfterOverrides(ByName, defs, dyn, m, m[OVERRIDES], h, frame, fuel))
    ensures AllBelow(ps, fuel)
    ensures OverridesRule(defs, dyn, m, h, frame,
                          AfterOverrides(ByName, defs, dyn, m, m[OVERRIDES], h, frame, fuel), ps)
  {
    hide Override, Overridden, Force, AddDynamic;
    assert fuel > 1;
    var q := ForceCell(m[OVERRIDES], h);
    var o := Answer(q, fuel - 2, fuel - 2);
    IsBelow(q, fuel - 2, fuel);
    ps := [Claim(q, o)];
    if o.r.Ok? && o.r.value.VAttrs? {
      var h1 := Override(defs, 0, o.r.value.attrs, o.h, frame);
      OverrideExactly(defs, o.r.value.attrs, frame, o.h, h1);
      var q1 := Extend(dyn, m + o.r.value.attrs, h1, frame);
      IsBelow(q1, fuel - 1, fuel);
      ps := ps + [Claim(q1, Answer(q1, fuel - 1, fuel - 1))];
    }
  }

  lemma {:induction false} BackEval(e: Expr, h: Heap, env: EnvAddr, fuel: nat) returns (ps: seq<Claim>)
    requires Settled(Eval(ByName, e, h, env, fuel))
    ensures EvaluateRule(e, h, env, Eval(ByName, e, h, env, fuel), ps) && AllBelow(ps, fuel)
  {
    assert fuel > 0;
    if e.Attrs? && e.recursive {
      ps := BackRecursive(e, h, env, fuel);
    } else {
      hide EvaluateRule, Eval, AllBelow;
      match e
      case Var(_, _) => ps := BackVar(e, h, env, fuel);
      case InheritFrom(_, _) => ps := BackInherit(e, h, env, fuel);
      case Select(_, _, _) => ps := BackSelect(e, h, env, fuel);
      case Attrs(_, _, _, _) => ps := BackAttrs(e, h, env, fuel);
      case Call(_, _) => ps := BackCall(e, h, env, fuel);
      case Let(_, _, _) => ps := BackLet(e, h, env, fuel);
      case With(_, _, _) => ps := BackWith(e, h, env, fuel);
      case If(_, _, _) => ps := BackIf(e, h, env, fuel);
      case _ => ps := BackSimple(e, h, env, fuel);
    }
  }

  predicate Simple(e: Expr) {
    e.Int? || e.Str? || e.Null? || e.List? || e.Lambda?
  }

  lemma {:induction false} BackSimple(e: Expr, h: Heap, env: EnvAddr, fuel: nat) returns (ps: seq<Claim>)
    requires Simple(e) && fuel > 0
    ensures EvaluateRule(e, h, env, Eval(ByName, e, h, env, fuel), ps) && AllBelow(ps, fuel)
  {
    hide AllDelayed, MaybeThunkAll;
    ps := [];
    if e.List? {
      var (addrs, h1) := MaybeThunkAll(ByName, e.elems, h, env);
      AllDelayedExactly(e.elems, h, env, addrs, h1);
    }
  }

  lemma {:induction false} BackRecursive(e: Expr, h: Heap, env: EnvAddr, fuel: nat) returns (ps: seq<Claim>)
    requires e.Attrs? && e.recursive && fuel > 0 && Settled(Eval(ByName, e, h, env, fuel))
    ensures EvaluateRule(e, h, env, Eval(ByName, e, h, env, fuel), ps) && AllBelow(ps, fuel)
  {
    hide RecRule, EvalRec;
    ps := BackRec(e.defs, e.from, e.dyn, h, env, fuel - 1);
  }

  lemma {:induction false} BackForce(a: Addr, h: Heap, fuel: nat) returns (ps: seq<Claim>)
    requires Settled(Force(ByName, a, h, fuel))
    ensures ForceRule(a, h, Force(ByName, a, h, fuel), ps) && AllBelow(ps, fuel)
  {
    hide Eval, SetCell, Rewritten;
    ps := [];
    RewrittenIsSet(h, a, Failed(InfiniteRecursion));
    if h.cells[a].Thunk? {
      var c := h.cells[a];
      RewrittenIsSet(h, a, Blackhole);
      var q := Evaluate(c.e, SetCell(h, a, Blackhole), c.env);
      var o := Answer(q, fuel - 1, fuel - 1);
      IsBelow(q, fuel - 1, fuel);
      ps := [Claim(q, o)];
      match o.r
      case Ok(v) => RewrittenIsSet(o.h, a, Done(v));
      case Err(x) => RewrittenIsSet(o.h, a, Failed(x));
      case OutOfFuel =>
    }
  }

  lemma {:induction false} BackSelectPath(
      v: Value, path: seq<Symbol>, def: Option<Expr>, h: Heap, env: EnvAddr, fuel: nat) returns (ps: seq<Claim>)
    requires Settled(SelectPath(ByName, v, path, def, h, env, fuel))
    ensures SelectRule(v, path, def, h, env, SelectPath(ByName, v, path, def, h, env, fuel), ps) && AllBelow(ps, fuel)
  {
    hide Eval, Force;
    ps := [];
    if path == [] {
    } else if v.VAttrs? && path[0] in v.attrs {
      var q := ForceCell(v.attrs[path[0]], h);
      var o := Answer(q, fuel - 1, fuel - 1);
      IsBelow(q, fuel - 1, fuel);
      ps := [Claim(q, o)];
      if o.r.Ok? {
        var q1 := Descend(o.r.value, path[1..], def, o.h, env);
        IsBelow(q1, fuel - 1, fuel);
        ps := ps + [Claim(q1, Answer(q1, fuel - 1, fuel - 1))];
      }
    } else if def.Some? {
      var q := Evaluate(def.value, h, env);
      IsBelow(q, fuel - 1, fuel);
      ps := [Claim(q, Answer(q, fuel - 1, fuel - 1))];
    }
  }

  lemma {:induction false} BackDynamic(
      dyn: seq<DynAttr>, bindings: map<Symbol, Addr>, h: Heap, env: EnvAddr, fuel: nat) returns (ps: seq<Claim>)
    requires Settled(AddDynamic(ByName, dyn, bindings, h, env, fuel))
    ensures DynamicRule(dyn, bindings, h, env, AddDynamic(ByName, dyn, bindings, h, env, fuel), ps)
    ensures AllBelow(ps, fuel)
  {
    hide Eval, MaybeThunk, Delayed;
    ps := [];
    if dyn != [] {
      var q := Evaluate(dyn[0].nameExpr, h, env);
      var o := Answer(q, fuel - 1, fuel - 1);
      IsBelow(q, fuel - 1, fuel);
      ps := [Claim(q, o)];
      if o.r.Ok? && o.r.value.VNull? {
        var q1 := Extend(dyn[1..], bindings, o.h, env);
        IsBelow(q1, fuel - 1, fuel);
        ps := ps + [Claim(q1, Answer(q1, fuel - 1, fuel - 1))];
      } else if o.r.Ok? && o.r.value.VStr? && o.r.value.s !in bindings {
        var (a, h1) := MaybeThunk(ByName, dyn[0].valueExpr, o.h, env);
        DelayedExactly(dyn[0].valueExpr, o.h, env, a, h1);
        var q1 := Extend(dyn[1..], bindings[o.r.value.s := a], h1, env);
        IsBelow(q1, fuel - 1, fuel);
        ps := ps + [Claim(q1, Answer(q1, fuel - 1, fuel - 1))];
      }
    }
  }

  lemma {:induction false} BackFunctor(f: Value, args: seq<Addr>, h: Heap, fuel: nat) returns (ps: seq<Claim>)
    requires f.VAttrs? && FUNCTOR in f.attrs && args != [] && Settled(CallFunction(ByName, f, args, h, fuel))
    ensures FunctorRule(f, args, h, CallFunction(ByName, f, args, h, fuel), ps) && AllBelow(ps, fuel)
  {
    hide Force;
    var q := ForceCell(f.attrs[FUNCTOR], WithCell(h, Done(f)));
    var o := Answer(q, fuel - 1, fuel - 1);
    IsBelow(q, fuel - 1, fuel);
    ps := [Claim(q, o)];
    if o.r.Ok? {
      var q1 := Apply(o.r.value, [|h.cells|, args[0]], o.h);
      var o1 := Answer(q1, fuel - 1, fuel - 1);
      IsBelow(q1, fuel - 1, fuel);
      ps := ps + [Claim(q1, o1)];
      if o1.r.Ok? {
        var q2 := Apply(o1.r.value, args[1..], o1.h);
        IsBelow(q2, fuel - 1, fuel);
        ps := ps + [Claim(q2, Answer(q2, fuel - 1, fuel - 1))];
      }
    }
  }

  /** The body and what is left of the arguments. */
  function AfterFrame(f: Value, args: seq<Addr>, h: Heap, frame: EnvAddr, fuel: nat): Out<Value>
    requires f.VLambda? && args != []
  {
    var r := Eval(ByName, f.body, h, frame, fuel);
    if r.r.Ok? then CallFunction(ByName, r.r.value, args[1..], r.h, fuel) else r
  }

  lemma {:induction false} BackBody(
      f: Value, args: seq<Addr>, h: Heap, frame: EnvAddr, fuel: nat, before: seq<Claim>) returns (ps: seq<Claim>)
    requires f.VLambda? && args != [] && fuel > 0 && Settled(AfterFrame(f, args, h, frame, fuel - 1))
    requires AllBelow(before, fuel)
    ensures BodyRule(f, args, h, frame, |before|, AfterFrame(f, args, h, frame, fuel - 1), ps) && AllBelow(ps, fuel)
    ensures before != [] ==> |ps| > 0 && ps[0] == before[0]
  {
    hide Eval, CallFunction;
    var q := Evaluate(f.body, h, frame);
    var o := Answer(q, fuel - 1, fuel - 1);
    IsBelow(q, fuel - 1, fuel);
    ps := before + [Claim(q, o)];
    if o.r.Ok? {
      var q1 := Apply(o.r.value, args[1..], o.h);
      IsBelow(q1, fuel - 1, fuel);
      ps := ps + [Claim(q1, Answer(q1, fuel - 1, fuel - 1))];
    }
  }

  lemma {:induction false} BackPlainCall(f: Value, args: seq<Addr>, h: Heap, fuel: nat) returns (ps: seq<Claim>)
    requires f.VLambda? && f.formals.None? && args != [] && Settled(CallFunction(ByName, f, args, h, fuel))
    ensures ApplyRule(f, args, h, CallFunction(ByName, f, args, h, fuel), ps) && AllBelow(ps, fuel)
  {
    hide BodyRule, Eval, CallFrame;
    assert fuel > 1;
    PlainFrame(f, args[0], h, fuel - 1);
    assert CallFunction(ByName, f, args, h, fuel) ==
      AfterFrame(f, args, WithFrame(h, CallFrame(f, [], args[0])), |h.envs|, fuel - 1);
    ps := BackBody(f, args, WithFrame(h, CallFrame(f, [], args[0])), |h.envs|, fuel, []);
  }

  lemma {:induction false} PlainFrame(f: Value, x: Addr, h: Heap, fuel: nat)
    requires f.VLambda? && f.formals.None? && fuel > 0
    ensures ArgFrame(ByName, f, x, h, fuel) == Out(Ok(|h.envs|), WithFrame(h, CallFrame(f, [], x)))
  {
    assert CallFrame(f, [], x) ==
      Env(ArgNames(f.arg), false, if f.arg.Some? then [Some(x)] else [], Some(f.env));
  }

  lemma {:induction false} BackFormalsCall(f: Value, args: seq<Addr>, h: Heap, fuel: nat) returns (ps: seq<Claim>)
    requires f.VLambda? && f.formals.Some? && args != [] && Settled(CallFunction(ByName, f, args, h, fuel))
    ensures FormalsRule(f, args, h, CallFunction(ByName, f, args, h, fuel), ps) && AllBelow(ps, fuel)
  {
    hide BodyRule, Eval, CallFrame, Force, FormalsFilled, MissingAt, NoneMissing, TooMany, ArgFrame;
    var x := args[0];
    var r := ArgFrame(ByName, f, x, h, fuel - 1);
    assert fuel > 2 by { ArgNeedsFuel(f, x, h, fuel - 1); }
    var q := ForceCell(x, h);
    var o := Answer(q, fuel - 3, fuel - 3);
    FormalsFrame(f, x, h, fuel - 1);
    if r.r.Ok? { assert CallFunction(ByName, f, args, h, fuel) == AfterFrame(f, args, r.h, r.r.value, fuel - 1); }
    IsBelow(q, fuel - 3, fuel);
    ps := [Claim(q, o)];
    if o.r.Ok? && o.r.value.VAttrs? {
      var fs, actual := f.formals.value.formals, o.r.value.attrs;
      if r.r.Ok? {
        ps := BackBody(f, args, r.h, |o.h.envs|, fuel, ps);
      }
    }
  }

  lemma ArgNeedsFuel(f: Value, x: Addr, h: Heap, fuel: nat)
    requires f.VLambda? && f.formals.Some? && !ArgFrame(ByName, f, x, h, fuel).r.OutOfFuel?
    ensures fuel > 1
  {
  }

  /** What making the frame of a call with formals comes to, once the argument is a set. */
  ghost predicate FormalsOutcome(f: Value, x: Addr, actual: map<Symbol, Addr>, h: Heap, r: Out<EnvAddr>)
    requires f.VLambda? && f.formals.Some?
  {
    var fs := f.formals.value.formals;
    && (forall k: nat :: MissingAt(fs, actual, k) ==> r == Fail(MissingArgument(fs[k].name), h))
    && (!NoneMissing(fs, actual) ==> exists k: nat :: MissingAt(fs, actual, k))
    && (NoneMissing(fs, actual) && TooMany(f.formals.value, actual) ==> r == Fail(UnexpectedArgument, h))
    && (NoneMissing(fs, actual) && !TooMany(f.formals.value, actual) ==>
          && r.r == Ok(|h.envs|)
          && forall h1 ::
               FormalsFilled(fs, |NameOf(f.arg)|, actual, WithFrame(h, CallFrame(f, fs, x)), |h.envs|, h1)
               <==> h1 == r.h)
  }

  lemma {:induction false} FormalsFrame(f: Value, x: Addr, h: Heap, fuel: nat)
    requires f.VLambda? && f.formals.Some? && fuel > 1
    ensures var r, o := ArgFrame(ByName, f, x, h, fuel), Force(ByName, x, h, fuel - 2);
      if !o.r.Ok? then r == Cast(o)
      else if !o.r.value.VAttrs? then r == Fail(NotASet, o.h)
      else FormalsOutcome(f, x, o.r.value.attrs, o.h, r)
  {
    hide Force, FormalsOutcome, FillFormals, UsedArgs;
    var o := Force(ByName, x, h, fuel - 2);
    if o.r.Ok? && o.r.value.VAttrs? {
      FilledOutcome(f, x, o.r.value.attrs, o.h);
      assert ArgFrame(ByName, f, x, h, fuel) == Framed(f, x, o.r.value.attrs, o.h);
    }
  }

  /** `ArgFrame` from the argument's set on. */
  function Framed(f: Value, x: Addr, actual: map<Symbol, Addr>, h: Heap): Out<EnvAddr>
    requires f.VLambda? && f.formals.Some?
  {
    var fs := f.formals.value.formals;
    var slots := (if f.arg.Some? then [Some(x)] else []) + EmptySlots(|fs|);
    var (frame, h1) := NewEnv(ByName, h, Env(ArgNames(f.arg) + FormalNames(fs), false, slots, Some(f.env)));
    var o := FillFormals(ByName, fs, 0, |ArgNames(f.arg)|, actual, h1, frame);
    if o.r.Err? then Fail(o.r.error, h)
    else if !f.formals.value.ellipsis && UsedArgs(fs, actual) != |actual| then Fail(UnexpectedArgument, h)
    else Out(Ok(frame), o.h)
  }

  lemma {:induction false} FilledOutcome(f: Value, x: Addr, actual: map<Symbol, Addr>, h: Heap)
    requires f.VLambda? && f.formals.Some?
    ensures FormalsOutcome(f, x, actual, h, Framed(f, x, actual, h))
  {
    hide FillFormals, UsedArgs, TooMany, FormalsFilled, FormalsFrom;
    var fs, base := f.formals.value.formals, |NameOf(f.arg)|;
    var frame, h0 := |h.envs|, WithFrame(h, CallFrame(f, fs, x));
    assert CallFrame(f, fs, x) ==
      Env(ArgNames(f.arg) + FormalNames(fs), false,
          (if f.arg.Some? then [Some(x)] else []) + EmptySlots(|fs|), Some(f.env));
    var o := FillFormals(ByName, fs, 0, base, actual, h0, frame);
    TooManyExactly(f.formals.value, actual);
    forall k: nat | MissingAt(fs, actual, k)
      ensures o.r == Err(MissingArgument(fs[k].name))
    {
      MissingExactly(fs, 0, k, base, actual, h0, frame);
    }
    if NoneMissing(fs, actual) {
      FormalsExactly(fs, 0, base, actual, h0, frame, o.h);
      forall h1
        ensures FormalsFilled(fs, base, actual, h0, frame, h1) <==> h1 == o.h
      {
        FormalsExactly(fs, 0, base, actual, h0, frame, h1);
        FormalsFromZero(fs, base, actual, h0, frame, h1);
      }
    } else {
      var k := FirstMissing(fs, actual, 0);
    }
  }

  lemma {:induction false} BackApply(f: Value, args: seq<Addr>, h: Heap, fuel: nat) returns (ps: seq<Claim>)
    requires Settled(CallFunction(ByName, f, args, h, fuel))
    ensures ApplyRule(f, args, h, CallFunction(ByName, f, args, h, fuel), ps) && AllBelow(ps, fuel)
  {
    hide FormalsRule, FunctorRule, AllBelow;
    if args == [] {
      ps := NoPremises(fuel);
    } else if f.VLambda? {
      hide CallFunction;
      if f.formals.None? {
        ps := BackPlainCall(f, args, h, fuel);
      } else {
        ps := BackFormalsCall(f, args, h, fuel);
      }
    } else if f.VAttrs? && FUNCTOR in f.attrs {
      hide CallFunction;
      ps := BackFunctor(f, args, h, fuel);
    } else {
      ps := NoPremises(fuel);
    }
  }

  lemma NoPremises(fuel: nat) returns (ps: seq<Claim>)
    ensures ps == [] && AllBelow(ps, fuel)
  {
    ps := [];
  }

  /** Every answer of the evaluator follows by a rule from answers with less fuel. */
  lemma {:induction false} Backward(q: Ask, fuel: nat) returns (ps: seq<Claim>)
    requires !q.LookThrough? && Settled(Answer(q, fuel, fuel))
    ensures Rule(Claim(q, Answer(q, fuel, fuel)), ps) && AllBelow(ps, fuel)
  {
    hide EvaluateRule, ForceRule, SelectRule, DynamicRule, ApplyRule, AllBelow;
    hide Eval, Force, SelectPath, AddDynamic, CallFunction;
    match q
    case Evaluate(e, h, env) => ps := BackEval(e, h, env, fuel);
    case ForceCell(a, h) => ps := BackForce(a, h, fuel);
    case Descend(v, path, def, h, env) => ps := BackSelectPath(v, path, def, h, env, fuel);
    case Extend(dyn, bindings, h, env) => ps := BackDynamic(dyn, bindings, h, env, fuel);
    case Apply(f, args, h) => ps := BackApply(f, args, h, fuel);
  }

  /** The search either ends at the frame it starts from, or goes on from the frame outside. */
  lemma {:induction false} SearchStep(name: Symbol, h: Heap, env: EnvAddr, w: EnvAddr, a: Addr, s: nat, g: nat)
    requires NextWith(h, env) == Some(w) && ReadSlot(h, w, 0) == Slot(a) && s > 3
    ensures var t, o := Through(name, h, env, s, g), Force(ByName, a, h, s - 3);
      if !o.r.Ok? then t == o
      else if !o.r.value.VAttrs? then t == Fail(NotASet, o.h)
      else if name in o.r.value.attrs then t == Force(ByName, o.r.value.attrs[name], o.h, g)
      else if w < |o.h.envs| && o.h.envs[w].up.Some? then t == Through(name, o.h, o.h.envs[w].up.value, s - 1, g)
      else t == Fail(UndefinedVar(name), o.h)
  {
    hide Force, NextWith;
    var o := Force(ByName, a, h, s - 3);
    var f := ForceAttrs(ByName, a, h, s - 2);
    assert f == if !o.r.Ok? then Cast(o) else if o.r.value.VAttrs? then Out(Ok(o.r.value.attrs), o.h)
                else Fail(NotASet, o.h);
  }

  lemma {:induction false} SearchNeeds(name: Symbol, h: Heap, env: EnvAddr, s: nat, g: nat)
    requires NextWith(h, env).Some? && Settled(Through(name, h, env, s, g))
    ensures s > 3 && ReadSlot(h, NextWith(h, env).value, 0).Slot?
  {
    hide Eval, NextWith;
    var w := NextWith(h, env).value;
    var slot := ReadSlot(h, w, 0);
    if s > 1 && slot.Slot? && s <= 3 {
      assert ForceAttrs(ByName, slot.a, h, s - 2).r.OutOfFuel?;
    }
  }

  /* From answers to derivations */

  lemma IsValid(d: Deriv)
    requires Settled(d.claim.out) && Rule(d.claim, Claims(d.premises))
    requires forall i :: 0 <= i < |d.premises| ==> Valid(d.premises[i])
    ensures Valid(d)
  {
  }

  /** A derivation from its last step. */
  lemma {:induction false} Derived(c: Claim, ds: seq<Deriv>) returns (d: Deriv)
    requires Settled(c.out) && Rule(c, Claims(ds)) && forall i :: 0 <= i < |ds| ==> Valid(ds[i])
    ensures Valid(d) && d.claim == c
  {
    hide Rule;
    d := Deriv(c, ds);
    IsValid(d);
  }

  lemma {:induction false} DeriveAll(ps: seq<Claim>, fuel: nat) returns (ds: seq<Deriv>)
    requires AllBelow(ps, fuel)
    ensures Claims(ds) == ps && forall i :: 0 <= i < |ds| ==> Valid(ds[i])
    decreases fuel, 0, 0, |ps|
  {
    hide Answer, Valid;
    if ps == [] {
      ds := [];
    } else {
      assert Below(ps[0], fuel);
      var f: nat :| f < fuel && Answer(ps[0].ask, f, f) == ps[0].out;
      var d := Derive(ps[0].ask, f);
      assert AllBelow(ps[1..], fuel) by {
        forall i | 0 <= i < |ps[1..]| ensures Below(ps[1..][i], fuel) { assert Below(ps[i + 1], fuel); }
      }
      var rest := DeriveAll(ps[1..], fuel);
      ds := [d] + rest;
      assert Claims(ds) == [d.claim] + Claims(rest);
      forall i | 0 <= i < |ds| ensures Valid(ds[i]) { assert i > 0 ==> ds[i] == rest[i - 1]; }
    }
  }

  /** Every settled answer has a derivation. */
  lemma {:induction false} Derive(q: Ask, fuel: nat) returns (d: Deriv)
    requires Settled(Answer(q, fuel, fuel))
    ensures Valid(d) && d.claim == Claim(q, Answer(q, fuel, fuel))
    decreases fuel, if q.LookThrough? then 2 else 0, 1, 0
  {
    if q.LookThrough? {
      d := DeriveThrough(q.name, q.h, q.env, fuel, fuel);
    } else {
      hide Answer, Rule, Valid, AllBelow, Settled;
      var ps := Backward(q, fuel);
      var ds := DeriveAll(ps, fuel);
      d := Derived(Claim(q, Answer(q, fuel, fuel)), ds);
    }
  }

  lemma {:induction false} DeriveThrough(name: Symbol, h: Heap, env: EnvAddr, s: nat, g: nat) returns (d: Deriv)
    requires s <= g && Settled(Through(name, h, env, s, g))
    ensures Valid(d) && d.claim == Claim(LookThrough(name, h, env), Through(name, h, env, s, g))
    decreases g, 1, s, 0
  {
    hide Valid, NextWith, InnermostWith, NoWith, Force, ReadSlot, Holds;
    var q, out := LookThrough(name, h, env), Through(name, h, env, s, g);
    var next := NextWith(h, env);
    NextWithExact(h, env, if next.Some? then next.value else 0);
    if next.None? {
      d := Derived(Claim(q, out), []);
    } else {
      SearchNeeds(name, h, env, s, g);
      var w, a := next.value, ReadSlot(h, next.value, 0).a;
      SearchStep(name, h, env, w, a, s, g);
      HoldsIsRead(h, w, 0, a);
      hide Through;
      var o := Force(ByName, a, h, s - 3);
      var d0 := Derive(ForceCell(a, h), s - 3);
      var ds := [d0];
      if o.r.Ok? && o.r.value.VAttrs? {
        if name in o.r.value.attrs {
          var d1 := Derive(ForceCell(o.r.value.attrs[name], o.h), g);
          ds := ds + [d1];
        } else if w < |o.h.envs| && o.h.envs[w].up.Some? {
          var d1 := DeriveThrough(name, o.h, o.h.envs[w].up.value, s - 1, g);
          ds := ds + [d1];
        }
      }
      d := Derived(Claim(q, out), ds);
    }
  }

  /* From rules to answers */

  lemma Use(ps: seq<Claim>, i: nat, n: nat, s: nat)
    requires AllFrom(ps, n) && i < |ps| && n <= s
    ensures Settled(ps[i].out) && Answer(ps[i].ask, s, s) == ps[i].out
  {
    hide Answer, Settled;
    assert From(ps[i], n);
  }

  lemma {:induction false} ForthSimple(e: Expr, h: Heap, env: EnvAddr, out: Out<Value>, ps: seq<Claim>, s: nat)
    requires Simple(e) && EvaluateRule(e, h, env, out, ps) && s > 0
    ensures Eval(ByName, e, h, env, s) == out
  {
    hide AllDelayed, MaybeThunkAll;
    if e.List? {
      var addrs, h1 :| AllDelayed(e.elems, h, env, addrs, h1) && out == Out(Ok(VList(addrs)), h1);
      AllDelayedExactly(e.elems, h, env, addrs, h1);
    }
  }

  lemma {:induction false} ForthIf(
      e: Expr, h: Heap, env: EnvAddr, out: Out<Value>, ps: seq<Claim>, n: nat, s: nat)
    requires e.If? && EvaluateRule(e, h, env, out, ps) && AllFrom(ps, n) && s > n + 4
    ensures Eval(ByName, e, h, env, s) == out
  {
    hide AllFrom;
    Use(ps, 0, n, s - 1);
    if |ps| > 1 { Use(ps, 1, n, s - 1); }
  }

  lemma {:induction false} ForthSelect(
      e: Expr, h: Heap, env: EnvAddr, out: Out<Value>, ps: seq<Claim>, n: nat, s: nat)
    requires e.Select? && EvaluateRule(e, h, env, out, ps) && AllFrom(ps, n) && s > n + 4
    ensures Eval(ByName, e, h, env, s) == out
  {
    hide AllFrom;
    Use(ps, 0, n, s - 1);
    if |ps| > 1 { Use(ps, 1, n, s - 1); }
  }

  lemma {:induction false} ForthCall(
      e: Expr, h: Heap, env: EnvAddr, out: Out<Value>, ps: seq<Claim>, n: nat, s: nat)
    requires e.Call? && EvaluateRule(e, h, env, out, ps) && AllFrom(ps, n) && s > n + 4
    ensures Eval(ByName, e, h, env, s) == out
  {
    hide AllFrom, AllDelayed, MaybeThunkAll;
    Use(ps, 0, n, s - 1);
    var o := ps[0].out;
    if o.r.Ok? {
      var addrs, h1 :| AllDelayed(e.args, o.h, env, addrs, h1) && EndsIn(ps, 1, Apply(o.r.value, addrs, h1), out);
      AllDelayedExactly(e.args, o.h, env, addrs, h1);
      Use(ps, 1, n, s - 1);
    }
  }

  lemma {:induction false} ForthLet(
      e: Expr, h: Heap, env: EnvAddr, out: Out<Value>, ps: seq<Claim>, n: nat, s: nat)
    requires e.Let? && EvaluateRule(e, h, env, out, ps) && AllFrom(ps, n) && s > n + 4
    ensures Eval(ByName, e, h, env, s) == out
  {
    hide AllFrom, FrameBuilt, RecFrame;
    var addrs, h1 :|
      FrameBuilt(e.defs, e.from, false, h, env, addrs, h1) && EndsIn(ps, 0, Evaluate(e.body, h1, |h.envs|), out);
    FrameExactly(e.defs, e.from, false, h, env, addrs, h1);
    Use(ps, 0, n, s - 1);
  }

  lemma {:induction false} ForthWith(
      e: Expr, h: Heap, env: EnvAddr, out: Out<Value>, ps: seq<Claim>, n: nat, s: nat)
    requires e.With? && EvaluateRule(e, h, env, out, ps) && AllFrom(ps, n) && s > n + 4
    ensures Eval(ByName, e, h, env, s) == out
  {
    hide AllFrom, Delayed, MaybeThunk;
    var a: nat, h1 :|
      && Delayed(e.attrs, h, env, a, h1)
      && EndsIn(ps, 0, Evaluate(e.body, WithFrame(h1, Env([], true, [Some(a)], Some(env))), |h1.envs|), out);
    DelayedExactly(e.attrs, h, env, a, h1);
    Use(ps, 0, n, s - 1);
  }

  lemma {:induction false} ForthVar(
      e: Expr, h: Heap, env: EnvAddr, out: Out<Value>, ps: seq<Claim>, n: nat, s: nat)
    requires e.Var? && EvaluateRule(e, h, env, out, ps) && AllFrom(ps, n) && s > n + 4
    ensures Eval(ByName, e, h, env, s) == out
  {
    hide AllFrom, NameSlot, NextWith, SearchWiths, Force, Unbound, BoundAt, Holds;
    if Unbound(h, env, e.name) && EndsIn(ps, 0, LookThrough(e.name, h, env), out) {
      NameSlotExact(h, env, e.name, 0);
      Use(ps, 0, n, s - 1);
    } else {
      var f: nat, i: nat, a: nat :|
        BoundAt(h, env, e.name, f, i) && Holds(h, f, i, a) && EndsIn(ps, 0, ForceCell(a, h), out);
      NameSlotExact(h, env, e.name, a);
      Use(ps, 0, n, s - 1);
    }
  }

  lemma {:induction false} ForthInherit(
      e: Expr, h: Heap, env: EnvAddr, out: Out<Value>, ps: seq<Claim>, n: nat, s: nat)
    requires e.InheritFrom? && EvaluateRule(e, h, env, out, ps) && AllFrom(ps, n) && s > n + 4
    ensures Eval(ByName, e, h, env, s) == out
  {
    hide AllFrom;
    Use(ps, 0, n, s - 1);
  }

  lemma {:induction false} ForthAttrs(
      e: Expr, h: Heap, env: EnvAddr, out: Out<Value>, ps: seq<Claim>, n: nat, s: nat)
    requires e.Attrs? && !e.recursive && EvaluateRule(e, h, env, out, ps) && AllFrom(ps, n) && s > n + 4
    ensures Eval(ByName, e, h, env, s) == out
  {
    hide AllFrom, SourcesDelayed, DefsDelayed, Bindings, Zip, PlainDefs, SourceFrame;
    var source: nat, h0, addrs, h1, m :|
      && SourcesDelayed(e.from, h, env, source, h0)
      && DefsDelayed(e.defs, false, false, h0, env, env, source, addrs, h1)
      && Bindings(e.defs, addrs, m) && EndsIn(ps, 0, Extend(e.dyn, m, h1, env), out);
    SourcesExactly(e.from, h, env, source, h0);
    PlainDefsExactly(e.defs, h0, env, source, addrs, h1);
    ZipExactly(e.defs, addrs, m);
    Use(ps, 0, n, s - 1);
  }

  lemma {:induction false} ForthRec(
      defs: seq<AttrDef>, from: seq<Expr>, dyn: seq<DynAttr>, h: Heap, env: EnvAddr, out: Out<Value>, ps: seq<Claim>,
      n: nat, s: nat)
    requires RecRule(defs, from, dyn, h, env, out, ps) && AllFrom(ps, n) && s > n + 3
    ensures EvalRec(ByName, defs, from, dyn, h, env, s) == out
  {
    hide AllFrom, FrameBuilt, RecFrame, Bindings, Zip, OverridesRule, AfterOverrides, DefIndex;
    var names, frame := DefNamesOf(defs), |h.envs|;
    var addrs, h1, m :|
      && FrameBuilt(defs, from, OVERRIDES in names, h, env, addrs, h1) && Bindings(defs, addrs, m)
      && if OVERRIDES !in names then EndsIn(ps, 0, Extend(dyn, m, h1, frame), out)
         else OverridesRule(defs, dyn, m, h1, frame, out, ps);
    DefIndexExactly(defs, OVERRIDES);
    FrameExactly(defs, from, OVERRIDES in names, h, env, addrs, h1);
    ZipExactly(defs, addrs, m);
    if OVERRIDES in names {
      DefOfName(defs, addrs, OVERRIDES);
      ForthOverrides(defs, dyn, m, h1, frame, out, ps, n, s);
    } else {
      Use(ps, 0, n, s - 1);
    }
  }

  lemma {:induction false} ForthOverrides(
      defs: seq<AttrDef>, dyn: seq<DynAttr>, m: map<Symbol, Addr>, h: Heap, frame: EnvAddr, out: Out<Value>,
      ps: seq<Claim>, n: nat, s: nat)
    requires OverridesRule(defs, dyn, m, h, frame, out, ps) && AllFrom(ps, n) && s > n + 3
    ensures AfterOverrides(ByName, defs, dyn, m, m[OVERRIDES], h, frame, s) == out
  {
    hide AllFrom, Override, Overridden, Force, AddDynamic;
    Use(ps, 0, n, s - 2);
    var o := ps[0].out;
    if o.r.Ok? && o.r.value.VAttrs? {
      var h1 :|
        && Overridden(defs, o.r.value.attrs, frame, o.h, h1)
        && EndsIn(ps, 1, Extend(dyn, m + o.r.value.attrs, h1, frame), out);
      OverrideExactly(defs, o.r.value.attrs, frame, o.h, h1);
      Use(ps, 1, n, s - 1);
    }
  }

  lemma {:induction false} ForthRecursive(
      e: Expr, h: Heap, env: EnvAddr, out: Out<Value>, ps: seq<Claim>, n: nat, s: nat)
    requires e.Attrs? && e.recursive && EvaluateRule(e, h, env, out, ps) && AllFrom(ps, n) && s > n + 4
    ensures Eval(ByName, e, h, env, s) == out
  {
    hide AllFrom, RecRule, EvalRec;
    ForthRec(e.defs, e.from, e.dyn, h, env, out, ps, n, s - 1);
  }

  lemma {:induction false} ForthEval(
      e: Expr, h: Heap, env: EnvAddr, out: Out<Value>, ps: seq<Claim>, n: nat, s: nat)
    requires EvaluateRule(e, h, env, out, ps) && AllFrom(ps, n) && s > n + 4
    ensures Eval(ByName, e, h, env, s) == out
  {
    hide EvaluateRule, Eval, AllFrom;
    match e
    case Var(_, _) => ForthVar(e, h, env, out, ps, n, s);
    case InheritFrom(_, _) => ForthInherit(e, h, env, out, ps, n, s);
    case Select(_, _, _) => ForthSelect(e, h, env, out, ps, n, s);
    case Attrs(recursive, _, _, _) =>
      if recursive {
        ForthRecursive(e, h, env, out, ps, n, s);
      } else {
        ForthAttrs(e, h, env, out, ps, n, s);
      }
    case Call(_, _) => ForthCall(e, h, env, out, ps, n, s);
    case Let(_, _, _) => ForthLet(e, h, env, out, ps, n, s);
    case With(_, _, _) => ForthWith(e, h, env, out, ps, n, s);
    case If(_, _, _) => ForthIf(e, h, env, out, ps, n, s);
    case _ => ForthSimple(e, h, env, out, ps, s);
  }

  lemma {:induction false} ForthForce(a: Addr, h: Heap, out: Out<Value>, ps: seq<Claim>, n: nat, s: nat)
    requires ForceRule(a, h, out, ps) && AllFrom(ps, n) && s > n + 4
    ensures Force(ByName, a, h, s) == out
  {
    hide AllFrom, Eval, SetCell, Rewritten;
    RewrittenIsSet(h, a, Failed(InfiniteRecursion));
    if h.cells[a].Thunk? {
      RewrittenIsSet(h, a, Blackhole);
      Use(ps, 0, n, s - 1);
      var o := ps[0].out;
      match o.r
      case Ok(v) => RewrittenIsSet(o.h, a, Done(v));
      case Err(x) => RewrittenIsSet(o.h, a, Failed(x));
      case OutOfFuel =>
    }
  }

  lemma {:induction false} ForthThrough(
      name: Symbol, h: Heap, env: EnvAddr, out: Out<Value>, ps: seq<Claim>, n: nat, s: nat, g: nat)
    requires WithRule(name, h, env, out, ps) && AllFrom(ps, n) && s > n + 4 && g > n + 4
    ensures Through(name, h, env, s, g) == out
  {
    hide AllFrom, NextWith, InnermostWith, NoWith, Force, ReadSlot, Holds, SearchWiths;
    if NoWith(h, env) && ps == [] && out == Fails(UndefinedVar(name), h) {
      NextWithExact(h, env, 0);
    } else {
      var w: nat, a: nat :|
        && InnermostWith(h, env, w) && Holds(h, w, 0, a)
        && |ps| > 0 && ps[0].ask == ForceCell(a, h)
        && var o := ps[0].out;
           if !o.r.Ok? then |ps| == 1 && out == o
           else if !o.r.value.VAttrs? then |ps| == 1 && out == Fails(NotASet, o.h)
           else if name in o.r.value.attrs then EndsIn(ps, 1, ForceCell(o.r.value.attrs[name], o.h), out)
           else if w < |o.h.envs| && o.h.envs[w].up.Some? then
             EndsIn(ps, 1, LookThrough(name, o.h, o.h.envs[w].up.value), out)
           else |ps| == 1 && out == Fails(UndefinedVar(name), o.h);
      NextWithExact(h, env, w);
      HoldsIsRead(h, w, 0, a);
      SearchStep(name, h, env, w, a, s, g);
      hide Through;
      Use(ps, 0, n, s - 3);
      var o := ps[0].out;
      if |ps| > 1 {
        assert From(ps[1], n) by { assert AllFrom(ps, n); LastFrom(ps, 1, n); }
        assert Answer(ps[1].ask, s - 1, g) == ps[1].out;
        assert Answer(ps[1].ask, g, g) == ps[1].out;
      }
    }
  }

  lemma LastFrom(ps: seq<Claim>, i: nat, n: nat)
    requires AllFrom(ps, n) && i < |ps|
    ensures From(ps[i], n)
  {
    hide From;
  }

  lemma {:induction false} ForthSelectPath(
      v: Value, path: seq<Symbol>, def: Option<Expr>, h: Heap, env: EnvAddr, out: Out<Value>, ps: seq<Claim>,
      n: nat, s: nat)
    requires SelectRule(v, path, def, h, env, out, ps) && AllFrom(ps, n) && s > n + 4
    ensures SelectPath(ByName, v, path, def, h, env, s) == out
  {
    hide AllFrom, Eval, Force;
    if |ps| > 0 { Use(ps, 0, n, s - 1); }
    if |ps| > 1 { Use(ps, 1, n, s - 1); }
  }

  lemma {:induction false} ForthDynamic(
      dyn: seq<DynAttr>, bindings: map<Symbol, Addr>, h: Heap, env: EnvAddr, out: Out<Value>, ps: seq<Claim>,
      n: nat, s: nat)
    requires DynamicRule(dyn, bindings, h, env, out, ps) && AllFrom(ps, n) && s > n + 4
    ensures AddDynamic(ByName, dyn, bindings, h, env, s) == out
  {
    hide AllFrom, Eval, MaybeThunk, Delayed;
    if |ps| > 0 { Use(ps, 0, n, s - 1); }
    if |ps| > 1 { Use(ps, 1, n, s - 1); }
    if dyn != [] {
      var o := ps[0].out;
      if o.r.Ok? && o.r.value.VStr? && o.r.value.s !in bindings {
        var a: nat, h1 :|
          && Delayed(dyn[0].valueExpr, o.h, env, a, h1)
          && EndsIn(ps, 1, Extend(dyn[1..], bindings[o.r.value.s := a], h1, env), out);
        DelayedExactly(dyn[0].valueExpr, o.h, env, a, h1);
      }
    }
  }

  lemma {:induction false} ForthFunctor(
      f: Value, args: seq<Addr>, h: Heap, out: Out<Value>, ps: seq<Claim>, n: nat, s: nat)
    requires f.VAttrs? && FUNCTOR in f.attrs && args != []
    requires FunctorRule(f, args, h, out, ps) && AllFrom(ps, n) && s > n + 4
    ensures CallFunction(ByName, f, args, h, s) == out
  {
    hide AllFrom, Force;
    Use(ps, 0, n, s - 1);
    if |ps| > 1 { Use(ps, 1, n, s - 1); }
    if |ps| > 2 { Use(ps, 2, n, s - 1); }
  }

  lemma {:induction false} ForthBody(
      f: Value, args: seq<Addr>, h: Heap, frame: EnvAddr, i: nat, out: Out<Value>, ps: seq<Claim>, n: nat, s: nat)
    requires f.VLambda? && args != []
    requires BodyRule(f, args, h, frame, i, out, ps) && AllFrom(ps, n) && s > n + 3
    ensures AfterFrame(f, args, h, frame, s) == out
  {
    hide AllFrom, Eval, CallFunction;
    Use(ps, i, n, s);
    if |ps| > i + 1 { Use(ps, i + 1, n, s); }
  }

  lemma {:induction false} ForthPlainCall(
      f: Value, args: seq<Addr>, h: Heap, out: Out<Value>, ps: seq<Claim>, n: nat, s: nat)
    requires f.VLambda? && f.formals.None? && args != []
    requires BodyRule(f, args, WithFrame(h, CallFrame(f, [], args[0])), |h.envs|, 0, out, ps)
    requires AllFrom(ps, n) && s > n + 4
    ensures CallFunction(ByName, f, args, h, s) == out
  {
    hide AllFrom, BodyRule, Eval, CallFrame;
    PlainFrame(f, args[0], h, s - 1);
    ForthBody(f, args, WithFrame(h, CallFrame(f, [], args[0])), |h.envs|, 0, out, ps, n, s - 1);
  }

  lemma {:induction false} ForthFormalsCall(
      f: Value, args: seq<Addr>, h: Heap, out: Out<Value>, ps: seq<Claim>, n: nat, s: nat)
    requires f.VLambda? && f.formals.Some? && args != []
    requires FormalsRule(f, args, h, out, ps) && AllFrom(ps, n) && s > n + 4
    ensures CallFunction(ByName, f, args, h, s) == out
  {
    hide AllFrom, BodyRule, Eval, CallFrame, Force, FormalsFilled, MissingAt, NoneMissing, TooMany, ArgFrame;
    Use(ps, 0, n, s - 3);
    FormalsFrame(f, args[0], h, s - 1);
    var o, r := ps[0].out, ArgFrame(ByName, f, args[0], h, s - 1);
    if o.r.Ok? && o.r.value.VAttrs? && r.r.Ok? {
      var fs, actual := f.formals.value.formals, o.r.value.attrs;
      var h1 :|
        && FormalsFilled(fs, |NameOf(f.arg)|, actual, WithFrame(o.h, CallFrame(f, fs, args[0])), |o.h.envs|, h1)
        && BodyRule(f, args, h1, |o.h.envs|, 1, out, ps);
      ForthBody(f, args, h1, |o.h.envs|, 1, out, ps, n, s - 1);
      assert CallFunction(ByName, f, args, h, s) == AfterFrame(f, args, r.h, r.r.value, s - 1);
    }
  }

  lemma {:induction false} ForthApply(
      f: Value, args: seq<Addr>, h: Heap, out: Out<Value>, ps: seq<Claim>, n: nat, s: nat)
    requires ApplyRule(f, args, h, out, ps) && AllFrom(ps, n) && s > n + 4
    ensures CallFunction(ByName, f, args, h, s) == out
  {
    hide FormalsRule, FunctorRule, BodyRule, AllFrom;
    if args == [] {
    } else if f.VLambda? {
      hide CallFunction;
      if f.formals.None? {
        ForthPlainCall(f, args, h, out, ps, n, s);
      } else {
        ForthFormalsCall(f, args, h, out, ps, n, s);
      }
    } else if f.VAttrs? && FUNCTOR in f.attrs {
      hide CallFunction;
      ForthFunctor(f, args, h, out, ps, n, s);
    }
  }

  /** What follows by a rule from answers is the answer. */
  lemma {:induction false} Forward(c: Claim, ps: seq<Claim>, n: nat)
    requires Settled(c.out) && Rule(c, ps) && AllFrom(ps, n)
    ensures From(c, n + 5)
  {
    forall s: nat, g: nat | n + 5 <= s && n + 5 <= g
      ensures Answer(c.ask, s, g) == c.out
    {
      hide EvaluateRule, ForceRule, WithRule, SelectRule, DynamicRule, ApplyRule, AllFrom;
      hide Eval, Force, Through, SelectPath, AddDynamic, CallFunction;
      match c.ask
      case Evaluate(e, h, env) => ForthEval(e, h, env, c.out, ps, n, s);
      case ForceCell(a, h) => ForthForce(a, h, c.out, ps, n, s);
      case LookThrough(name, h, env) => ForthThrough(name, h, env, c.out, ps, n, s, g);
      case Descend(v, path, def, h, env) => ForthSelectPath(v, path, def, h, env, c.out, ps, n, s);
      case Extend(dyn, bindings, h, env) => ForthDynamic(dyn, bindings, h, env, c.out, ps, n, s);
      case Apply(f, args, h) => ForthApply(f, args, h, c.out, ps, n, s);
    }
  }

  lemma LastStep(d: Deriv)
    requires Valid(d)
    ensures Settled(d.claim.out) && Rule(d.claim, Claims(d.premises))
    ensures forall i :: 0 <= i < |d.premises| ==> Valid(d.premises[i])
  {
  }

  lemma {:induction false} Longer(c: Claim, n: nat, more: nat)
    requires From(c, n) && n <= more
    ensures From(c, more)
  {
    hide Answer, Settled;
  }

  /** What is derived is the answer, with enough fuel. */
  lemma {:induction false} Sound(d: Deriv) returns (n: nat)
    requires Valid(d)
    ensures From(d.claim, n)
    decreases d, 1, 0
  {
    hide Rule, From, Settled, Valid, Answer;
    LastStep(d);
    var k := SoundTo(d, |d.premises|);
    assert Claims(d.premises)[..|d.premises|] == Claims(d.premises);
    Forward(d.claim, Claims(d.premises), k);
    n := k + 5;
  }

  lemma {:induction false} SoundTo(d: Deriv, i: nat) returns (n: nat)
    requires Valid(d) && i <= |d.premises|
    ensures AllFrom(Claims(d.premises)[..i], n)
    decreases d, 0, i
  {
    hide Rule, From, Settled, Valid, Answer;
    LastStep(d);
    n := 0;
    if i > 0 {
      var before := SoundTo(d, i - 1);
      var last := Sound(d.premises[i - 1]);
      n := if before < last then last else before;
      var ps := Claims(d.premises)[..i];
      forall j | 0 <= j < |ps|
        ensures From(ps[j], n)
      {
        if j < i - 1 {
          assert ps[j] == Claims(d.premises)[..i - 1][j];
          Longer(ps[j], before, n);
        } else {
          Longer(ps[j], last, n);
        }
      }
    }
  }

  /* The theorem */

  ghost predicate Derivable(c: Claim) {
    exists d :: Valid(d) && d.claim == c
  }

  lemma DerivableIsSettled(c: Claim)
    requires Derivable(c)
    ensures Settled(c.out)
  {
    var d :| Valid(d) && d.claim == c;
  }

  lemma {:induction false} SettledIsDerivable(e: Expr, h: Heap, env: EnvAddr, fuel: nat)
    requires Settled(Eval(ByName, e, h, env, fuel))
    ensures Derivable(Claim(Evaluate(e, h, env), Eval(ByName, e, h, env, fuel)))
  {
    hide Eval, Valid, Settled;
    var d := Derive(Evaluate(e, h, env), fuel);
  }

  /** Evaluation by name computes the language: whatever the expression, the memory and the
      frame, a value or an error of the program is what evaluation comes to with some fuel
      exactly when it has a derivation. */
  lemma {:induction false} EvalIsDerivable(e: Expr, h: Heap, env: EnvAddr, out: Out<Value>)
    requires Settled(out)
    ensures (exists fuel: nat :: Eval(ByName, e, h, env, fuel) == out) <==> Derivable(Claim(Evaluate(e, h, env), out))
  {
    hide Eval, Valid, Settled;
    var q := Evaluate(e, h, env);
    if exists fuel: nat :: Eval(ByName, e, h, env, fuel) == out {
      var fuel: nat :| Eval(ByName, e, h, env, fuel) == out;
      SettledIsDerivable(e, h, env, fuel);
    }
    if Derivable(Claim(q, out)) {
      var d :| Valid(d) && d.claim == Claim(q, out);
      var n := Sound(d);
      assert Eval(ByName, e, h, env, n) == Answer(q, n, n) == out;
    }
  }

  /** Nothing has two derivations with different outcomes. */
  lemma {:induction false} OneOutcome(q: Ask, one: Out<Value>, other: Out<Value>)
    requires Derivable(Claim(q, one)) && Derivable(Claim(q, other))
    ensures one == other
  {
    hide Answer, Valid, Settled;
    var d :| Valid(d) && d.claim == Claim(q, one);
    var d' :| Valid(d') && d'.claim == Claim(q, other);
    var n := Sound(d);
    var m := Sound(d');
    var k := if n < m then m else n;
    assert Answer(q, k, k) == one && Answer(q, k, k) == other;
  }

  /** Neither does the fuel change what evaluation comes to, once there is enough. */
  lemma {:induction false} FuelDoesNotMatter(e: Expr, h: Heap, env: EnvAddr, fuel: nat, more: nat)
    requires Settled(Eval(ByName, e, h, env, fuel)) && Settled(Eval(ByName, e, h, env, more))
    ensures Eval(ByName, e, h, env, fuel) == Eval(ByName, e, h, env, more)
  {
    hide Eval, Settled;
    var q := Evaluate(e, h, env);
    EvalIsDerivable(e, h, env, Eval(ByName, e, h, env, fuel));
    EvalIsDerivable(e, h, env, Eval(ByName, e, h, env, more));
    OneOutcome(q, Eval(ByName, e, h, env, fuel), Eval(ByName, e, h, env, more));
  }

  /* Laws */

  /** Filling formals from the `i`-th on leaves the slots before it alone. */
  lemma {:induction false} FillingKeeps(
      fs: seq<Formal>, i: nat, base: nat, actual: map<Symbol, Addr>, h: Heap, frame: EnvAddr, j: nat, a: Addr)
    requires i <= |fs| && j < base + i && Holds(h, frame, j, a)
    requires FillFormals(ByName, fs, i, base, actual, h, frame).r.Ok?
    ensures Holds(FillFormals(ByName, fs, i, base, actual, h, frame).h, frame, j, a)
    decreases |fs| - i
  {
    if i < |fs| {
      FillingKeeps(fs, i + 1, base, actual, FormalHeap(fs[i], base + i, actual, h, frame), frame, j, a);
    }
  }

  lemma {:induction false} FillingGives(
      fs: seq<Formal>, i: nat, base: nat, actual: map<Symbol, Addr>, h: Heap, frame: EnvAddr, k: nat)
    requires i <= k < |fs| && fs[k].name in actual && frame < |h.envs| && base + k < |h.envs[frame].slots|
    requires FillFormals(ByName, fs, i, base, actual, h, frame).r.Ok?
    ensures Holds(FillFormals(ByName, fs, i, base, actual, h, frame).h, frame, base + k, actual[fs[k].name])
    decreases |fs| - i
  {
    var mid := FormalHeap(fs[i], base + i, actual, h, frame);
    if i == k {
      FillingKeeps(fs, i + 1, base, actual, mid, frame, base + k, actual[fs[k].name]);
    } else {
      FillingGives(fs, i + 1, base, actual, mid, frame, k);
    }
  }

  /** The frame of a call holds the argument under its `@` name, and under every formal the
      attribute of that name if the argument has one, whatever the default. */
  lemma {:induction false} GivenFormal(f: Value, x: Addr, h: Heap, fuel: nat, k: nat)
    requires f.VLambda? && f.formals.Some? && k < |f.formals.value.formals| && fuel > 1
    requires ArgFrame(ByName, f, x, h, fuel).r.Ok?
    ensures var r, o := ArgFrame(ByName, f, x, h, fuel), Force(ByName, x, h, fuel - 2);
      var formal := f.formals.value.formals[k];
      && o.r.Ok? && o.r.value.VAttrs? && (formal.name in o.r.value.attrs || formal.def.Some?)
      && (f.arg.Some? ==> Holds(r.h, r.r.value, 0, x))
      && (formal.name in o.r.value.attrs ==>
            Holds(r.h, r.r.value, |NameOf(f.arg)| + k, o.r.value.attrs[formal.name]))
  {
    hide Force, FillFormals, UsedArgs;
    var o := Force(ByName, x, h, fuel - 2);
    FormalsFrame(f, x, h, fuel);
    var fs, actual, base := f.formals.value.formals, o.r.value.attrs, |NameOf(f.arg)|;
    var slots := (if f.arg.Some? then [Some(x)] else []) + EmptySlots(|fs|);
    var (frame, h1) := NewEnv(ByName, o.h, Env(ArgNames(f.arg) + FormalNames(fs), false, slots, Some(f.env)));
    var r := FillFormals(ByName, fs, 0, base, actual, h1, frame);
    assert r.r.Ok? && ArgFrame(ByName, f, x, h, fuel) == Out(Ok(frame), r.h);
    if f.arg.Some? { FillingKeeps(fs, 0, base, actual, h1, frame, 0, x); }
    if fs[k].name in actual { FillingGives(fs, 0, base, actual, h1, frame, k); }
  }

  /** A conditional comes to what the branch of its condition comes to. */
  lemma {:induction false} IfLaw(
      cond: Expr, thn: Expr, els: Expr, h: Heap, env: EnvAddr, b: bool, h1: Heap, out: Out<Value>)
    requires Derivable(Claim(Evaluate(cond, h, env), Out(Ok(VBool(b)), h1)))
    ensures Derivable(Claim(Evaluate(If(cond, thn, els), h, env), out)) <==>
            Derivable(Claim(Evaluate(if b then thn else els, h1, env), out))
  {
    hide Valid;
    var q, q1 := Evaluate(If(cond, thn, els), h, env), Evaluate(if b then thn else els, h1, env);
    var d0 :| Valid(d0) && d0.claim == Claim(Evaluate(cond, h, env), Out(Ok(VBool(b)), h1));
    if Derivable(Claim(q, out)) {
      var d :| Valid(d) && d.claim == Claim(q, out);
      LastStep(d);
      var ps := Claims(d.premises);
      assert Derivable(ps[0]) && ps[0] == d.premises[0].claim;
      OneOutcome(Evaluate(cond, h, env), ps[0].out, Out(Ok(VBool(b)), h1));
      assert Derivable(d.premises[1].claim);
    }
    if Derivable(Claim(q1, out)) {
      var d1 :| Valid(d1) && d1.claim == Claim(q1, out);
      DerivableIsSettled(Claim(q1, out));
      assert Claims([d0, d1]) == [d0.claim, d1.claim];
      var d := Derived(Claim(q, out), [d0, d1]);
    }
  }
}
