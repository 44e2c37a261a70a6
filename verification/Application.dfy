/** Function application: the n-ary loop over lambdas, primitive operations, partial
    applications and functors. */
module Application {
  import opened Common

  /** A pointer to a value cell, as arguments are passed. */
  type Arg = nat

  /** `maxPrimOpArity`. */
  const MAX_ARITY := 8

  /** A forced value, as far as application can tell values apart. */
  datatype AnyValue =
    | Lambda(code: nat)
    | PrimOp(code: nat, arity: nat)
    | PrimOpApp(left: AnyValue, right: Arg)
    | Set(functor: Option<Arg>, code: nat)
    | Data(code: nat)

  /** How many arguments a chain of partial applications holds. */
  function ChainLength(v: AnyValue): nat {
    if v.PrimOpApp? then ChainLength(v.left) + 1 else 0
  }

  /** What a chain of partial applications starts from. */
  function Head(v: AnyValue): AnyValue {
    if v.PrimOpApp? then Head(v.left) else v
  }

  /** A chain starts from a primitive operation and is strictly shorter than its arity,
      which `PrimOp::check` bounds. */
  predicate WellFormed(v: AnyValue) {
    match v
    case PrimOp(_, arity) => 1 <= arity <= MAX_ARITY
    case PrimOpApp(left, _) =>
      Head(left).PrimOp? && 1 <= Head(left).arity <= MAX_ARITY && ChainLength(v) < Head(left).arity
    case _ => true
  }

  type Value = v: AnyValue | WellFormed(v) witness Data(0)

  datatype Result = Done(value: Value) | Error | OutOfFuel

  /** A computation's effect on the machine, and its result. */
  datatype Out<S> = Out(state: S, result: Result)

  /** Everything application calls and does not look into: evaluating a lambda's body with
      its argument bound, running a primitive operation, forcing a cell, allocating one. */
  datatype World<!S> = World(
    body: (S, nat, Arg) -> Out<S>,
    prim: (S, nat, seq<Arg>) -> Out<S>,
    force: (S, Arg) -> Out<S>,
    alloc: (S, Value) -> (S, Arg))

  /** The arguments of a chain, in the order they were applied. */
  function ChainArgs(v: AnyValue): (args: seq<Arg>)
    ensures |args| == ChainLength(v)
  {
    if v.PrimOpApp? then ChainArgs(v.left) + [v.right] else []
  }

  function Chain(v: AnyValue, args: seq<Arg>): AnyValue
    decreases |args|
  {
    if args == [] then v else Chain(PrimOpApp(v, args[0]), args[1..])
  }

  lemma {:induction false} ChainIs(v: AnyValue, args: seq<Arg>)
    ensures Head(Chain(v, args)) == Head(v)
    ensures ChainLength(Chain(v, args)) == ChainLength(v) + |args|
    ensures ChainArgs(Chain(v, args)) == ChainArgs(v) + args
    ensures |args| > 0 ==> Chain(v, args).PrimOpApp?
    decreases |args|
  {
    if args != [] {
      ChainIs(PrimOpApp(v, args[0]), args[1..]);
      assert ChainArgs(v) + [args[0]] + args[1..] == ChainArgs(v) + args;
    }
  }

  /** A partial application that is still too short is a well-formed value. */
  lemma ChainWellFormed(v: Value, args: seq<Arg>)
    requires v.PrimOp? || v.PrimOpApp?
    requires ChainLength(v) + |args| < Head(v).arity
    ensures WellFormed(Chain(v, args))
  {
    ChainIs(v, args);
    if args != [] {
      assert Head(Chain(v, args).left) == Head(v);
    }
  }

  /* The n-ary application */

  /** `callFunction` on a forced function. Fuel bounds only the nesting of functors. */
  function Call<S>(w: World<S>, s: S, f: Value, args: seq<Arg>, fuel: nat): Out<S>
    decreases fuel, |args|, 1
  {
    if args == [] then
      Out(s, Done(f))
    else
      match f
      case Lambda(code) =>
        Continue(w, w.body(s, code, args[0]), args, 1, fuel)
      case PrimOp(code, arity) =>
        if |args| < arity then (ChainWellFormed(f, args); Out(s, Done(Chain(f, args))))
        else Continue(w, w.prim(s, code, args[..arity]), args, arity, fuel)
      case PrimOpApp(_, _) =>
        var left := Head(f).arity - ChainLength(f);
        if |args| < left then (ChainWellFormed(f, args); Out(s, Done(Chain(f, args))))
        else Continue(w, w.prim(s, Head(f).code, ChainArgs(f) + args[..left]), args, left, fuel)
      case Set(functor, _) =>
        if functor.None? then Out(s, Error)
        else if fuel == 0 then Out(s, OutOfFuel)
        else
          var (s1, self) := w.alloc(s, f);
          var o := w.force(s1, functor.value);
          if !o.result.Done? then o
          else Continue(w, Call(w, o.state, o.result.value, [self, args[0]], fuel - 1), args, 1, fuel)
      case Data(_) => Out(s, Error)
  }

  /** Go on with what a call returned, having consumed the first arguments. */
  function Continue<S>(w: World<S>, o: Out<S>, args: seq<Arg>, used: nat, fuel: nat): Out<S>
    requires 0 < used <= |args|
    decreases fuel, |args|, 0
  {
    if o.result.Done? then Call(w, o.state, o.result.value, args[used..], fuel) else o
  }

  /* One argument at a time */

  /** The reference: what applying a function to a single argument means. */
  function Apply<S>(w: World<S>, s: S, f: Value, x: Arg, fuel: nat): Out<S>
    decreases fuel
  {
    match f
    case Lambda(code) => w.body(s, code, x)
    case PrimOp(code, arity) =>
      if arity == 1 then w.prim(s, code, [x]) else Out(s, Done(PrimOpApp(f, x)))
    case PrimOpApp(_, _) =>
      if ChainLength(f) + 1 == Head(f).arity then w.prim(s, Head(f).code, ChainArgs(f) + [x])
      else Out(s, Done(PrimOpApp(f, x)))
    case Set(functor, _) =>
      if functor.None? then Out(s, Error)
      else if fuel == 0 then Out(s, OutOfFuel)
      else
        var (s1, self) := w.alloc(s, f);
        var o := w.force(s1, functor.value);
        if !o.result.Done? then o
        else
          var o2 := Apply(w, o.state, o.result.value, self, fuel - 1);
          if o2.result.Done? then Apply(w, o2.state, o2.result.value, x, fuel - 1) else o2
    case Data(_) => Out(s, Error)
  }

  function ApplyAll<S>(w: World<S>, s: S, f: Value, args: seq<Arg>, fuel: nat): Out<S>
    decreases |args|
  {
    if args == [] then
      Out(s, Done(f))
    else
      var o := Apply(w, s, f, args[0], fuel);
      if o.result.Done? then ApplyAll(w, o.state, o.result.value, args[1..], fuel) else o
  }

  lemma {:induction false} ApplyAllAppend<S>(w: World<S>, s: S, f: Value, xs: seq<Arg>, ys: seq<Arg>, fuel: nat)
    ensures ApplyAll(w, s, f, xs + ys, fuel) ==
            var o := ApplyAll(w, s, f, xs, fuel);
            if o.result.Done? then ApplyAll(w, o.state, o.result.value, ys, fuel) else o
    decreases |xs|
  {
    if xs == [] {
      assert xs + ys == ys;
    } else {
      assert (xs + ys)[1..] == xs[1..] + ys;
      var o := Apply(w, s, f, xs[0], fuel);
      if o.result.Done? {
        ApplyAllAppend(w, o.state, o.result.value, xs[1..], ys, fuel);
      }
    }
  }

  lemma ApplyAllOne<S>(w: World<S>, s: S, f: Value, x: Arg, fuel: nat)
    ensures ApplyAll(w, s, f, [x], fuel) == Apply(w, s, f, x, fuel)
  {
    assert [x][1..] == [];
  }

  lemma ApplyAllTwo<S>(w: World<S>, s: S, f: Value, x: Arg, y: Arg, fuel: nat)
    ensures ApplyAll(w, s, f, [x, y], fuel) ==
            var o := Apply(w, s, f, x, fuel);
            if o.result.Done? then Apply(w, o.state, o.result.value, y, fuel) else o
  {
    assert [x, y][1..] == [y];
    var o := Apply(w, s, f, x, fuel);
    if o.result.Done? {
      ApplyAllOne(w, o.state, o.result.value, y, fuel);
    }
  }

  /* What one application does, case by case */

  /** A lambda evaluates its body with the argument; data and sets without a functor cannot be
      applied. */
  lemma ApplyPlain<S>(w: World<S>, s: S, f: Value, x: Arg, fuel: nat)
    ensures f.Lambda? ==> Call(w, s, f, [x], fuel) == w.body(s, f.code, x)
    ensures f.Data? || (f.Set? && f.functor.None?) ==> Call(w, s, f, [x], fuel) == Out(s, Error)
  {
    if f.Lambda? {
      var o := w.body(s, f.code, x);
      assert [x][1..] == [];
      assert o.result.Done? ==> Call(w, o.state, o.result.value, [], fuel) == o;
    }
  }

  /** A functor that is a primitive operation of two arguments runs it on the set's own cell,
      newly allocated, and then the argument. */
  lemma FunctorRunsOperation<S>(w: World<S>, s: S, f: Value, x: Arg, fuel: nat, code: nat)
    requires f.Set? && f.functor.Some? && fuel > 0
    requires w.force(w.alloc(s, f).0, f.functor.value).result == Done(PrimOp(code, 2))
    ensures var (s1, self) := w.alloc(s, f);
      Call(w, s, f, [x], fuel) == w.prim(w.force(s1, f.functor.value).state, code, [self, x])
  {
    var (s1, self) := w.alloc(s, f);
    var o := w.force(s1, f.functor.value);
    assert [self, x][..2] == [self, x] && [self, x][2..] == [] && [x][1..] == [];
    var r := w.prim(o.state, code, [self, x]);
    assert Call(w, o.state, o.result.value, [self, x], fuel - 1) == r by {
      assert r.result.Done? ==> Call(w, r.state, r.result.value, [], fuel - 1) == r;
    }
    assert r.result.Done? ==> Call(w, r.state, r.result.value, [], fuel) == r;
  }

  /** A functor that is a lambda is applied to the set's own cell, and what it returns to the
      argument. */
  lemma FunctorAppliesLambda<S>(w: World<S>, s: S, f: Value, x: Arg, fuel: nat, code: nat)
    requires f.Set? && f.functor.Some? && fuel > 0
    requires w.force(w.alloc(s, f).0, f.functor.value).result == Done(Lambda(code))
    ensures var (s1, self) := w.alloc(s, f);
      var o := w.body(w.force(s1, f.functor.value).state, code, self);
      Apply(w, s, f, x, fuel) == if o.result.Done? then Apply(w, o.state, o.result.value, x, fuel - 1) else o
  {
  }

  /** Fewer arguments than a primitive operation still needs only lengthen the chain. */
  lemma {:induction false} ApplyAllShort<S>(w: World<S>, s: S, f: Value, args: seq<Arg>, fuel: nat)
    requires f.PrimOp? || f.PrimOpApp?
    requires ChainLength(f) + |args| < Head(f).arity
    ensures WellFormed(Chain(f, args))
    ensures ApplyAll(w, s, f, args, fuel) == Out(s, Done(Chain(f, args)))
    decreases |args|
  {
    ChainWellFormed(f, args);
    if args != [] {
      ChainWellFormed(f, [args[0]]);
      ApplyAllShort(w, s, PrimOpApp(f, args[0]), args[1..], fuel);
    }
  }

  /** Exactly the arguments it still needs make it run, on all of them in order. */
  lemma {:induction false} ApplyAllExact<S>(w: World<S>, s: S, f: Value, args: seq<Arg>, fuel: nat)
    requires f.PrimOp? || f.PrimOpApp?
    requires |args| > 0 && ChainLength(f) + |args| == Head(f).arity
    ensures ApplyAll(w, s, f, args, fuel) == w.prim(s, Head(f).code, ChainArgs(f) + args)
  {
    var n := |args| - 1;
    assert args == args[..n] + [args[n]];
    ApplyAllAppend(w, s, f, args[..n], [args[n]], fuel);
    ApplyAllShort(w, s, f, args[..n], fuel);
    ChainIs(f, args[..n]);
    var g := Chain(f, args[..n]);
    assert ChainArgs(g) + [args[n]] == ChainArgs(f) + args;
    var o := Apply(w, s, g, args[n], fuel);
    if o.result.Done? {
      assert ApplyAll(w, o.state, o.result.value, [], fuel) == o;
    }
    assert [args[n]][1..] == [];
  }

  /** The n-ary loop refines one-argument-at-a-time application, for every function and
      every argument list. */
  lemma {:induction false} CallIsApplyAll<S>(w: World<S>, s: S, f: Value, args: seq<Arg>, fuel: nat)
    ensures Call(w, s, f, args, fuel) == ApplyAll(w, s, f, args, fuel)
    decreases fuel, |args|, 2
  {
    if args != [] {
      match f
      case Lambda(code) =>
        ApplyAllOne(w, s, f, args[0], fuel);
        assert args[..1] == [args[0]];
        CallStep(w, w.body(s, code, args[0]), s, f, args, 1, fuel);
      case PrimOp(code, arity) => CallPrim(w, s, f, args, fuel);
      case PrimOpApp(_, _) => CallPrim(w, s, f, args, fuel);
      case Set(functor, _) =>
        if functor.Some? && fuel > 0 {
          var (s1, self) := w.alloc(s, f);
          var o := w.force(s1, functor.value);
          if o.result.Done? {
            CallIsApplyAll(w, o.state, o.result.value, [self, args[0]], fuel - 1);
            ApplyAllTwo(w, o.state, o.result.value, self, args[0], fuel - 1);
            ApplyAllOne(w, s, f, args[0], fuel);
            assert args[..1] == [args[0]];
            CallStep(w, Call(w, o.state, o.result.value, [self, args[0]], fuel - 1), s, f, args, 1, fuel);
          }
        }
      case Data(_) =>
    }
  }

  /** One round of the loop, given that its call amounts to applying the arguments used. */
  lemma {:induction false} CallStep<S>(w: World<S>, o: Out<S>, s: S, f: Value, args: seq<Arg>, used: nat, fuel: nat)
    requires 0 < used <= |args|
    requires o == ApplyAll(w, s, f, args[..used], fuel)
    ensures Continue(w, o, args, used, fuel) == ApplyAll(w, s, f, args, fuel)
    decreases fuel, |args|, 0
  {
    assert args == args[..used] + args[used..];
    ApplyAllAppend(w, s, f, args[..used], args[used..], fuel);
    if o.result.Done? {
      CallIsApplyAll(w, o.state, o.result.value, args[used..], fuel);
    }
  }

  lemma {:induction false} CallPrim<S>(w: World<S>, s: S, f: Value, args: seq<Arg>, fuel: nat)
    requires args != [] && (f.PrimOp? || f.PrimOpApp?)
    ensures Call(w, s, f, args, fuel) == ApplyAll(w, s, f, args, fuel)
    decreases fuel, |args|, 1
  {
    var left := Head(f).arity - ChainLength(f);
    if |args| < left {
      ApplyAllShort(w, s, f, args, fuel);
    } else {
      ApplyAllExact(w, s, f, args[..left], fuel);
      assert ChainArgs(f) + args[..left] == if f.PrimOp? then args[..left] else ChainArgs(f) + args[..left];
      CallStep(w, w.prim(s, Head(f).code, ChainArgs(f) + args[..left]), s, f, args, left, fuel);
    }
  }

  /** Application splits: supplying the arguments in two calls is the same as in one. */
  lemma CallSplits<S>(w: World<S>, s: S, f: Value, xs: seq<Arg>, ys: seq<Arg>, fuel: nat)
    ensures Call(w, s, f, xs + ys, fuel) ==
            var o := Call(w, s, f, xs, fuel);
            if o.result.Done? then Call(w, o.state, o.result.value, ys, fuel) else o
  {
    CallIsApplyAll(w, s, f, xs + ys, fuel);
    CallIsApplyAll(w, s, f, xs, fuel);
    ApplyAllAppend(w, s, f, xs, ys, fuel);
    var o := Call(w, s, f, xs, fuel);
    if o.result.Done? {
      CallIsApplyAll(w, o.state, o.result.value, ys, fuel);
    }
  }

  /** Fuel does not show: a call that ends within some fuel ends the same with more. */
  lemma {:induction false} MoreFuel<S(!new)>(w: World<S>, s: S, f: Value, args: seq<Arg>, fuel: nat, more: nat)
    requires !Call(w, s, f, args, fuel).result.OutOfFuel? && fuel <= more
    requires NeverOutOfFuel(w)
    ensures Call(w, s, f, args, more) == Call(w, s, f, args, fuel)
    decreases fuel, |args|, 1
  {
    if args != [] {
      match f
      case Lambda(code) => MoreFuelContinue(w, w.body(s, code, args[0]), args, 1, fuel, more);
      case PrimOp(code, arity) =>
        if |args| >= arity {
          MoreFuelContinue(w, w.prim(s, code, args[..arity]), args, arity, fuel, more);
        }
      case PrimOpApp(_, _) =>
        var left := Head(f).arity - ChainLength(f);
        if |args| >= left {
          MoreFuelContinue(w, w.prim(s, Head(f).code, ChainArgs(f) + args[..left]), args, left, fuel, more);
        }
      case Set(functor, _) =>
        if functor.Some? {
          var (s1, self) := w.alloc(s, f);
          var o := w.force(s1, functor.value);
          if o.result.Done? {
            MoreFuel(w, o.state, o.result.value, [self, args[0]], fuel - 1, more - 1);
            MoreFuelContinue(w, Call(w, o.state, o.result.value, [self, args[0]], fuel - 1), args, 1, fuel, more);
          }
        }
      case Data(_) =>
    }
  }

  lemma {:induction false} MoreFuelContinue<S(!new)>(
      w: World<S>, o: Out<S>, args: seq<Arg>, used: nat, fuel: nat, more: nat)
    requires 0 < used <= |args| && fuel <= more && NeverOutOfFuel(w)
    requires !Continue(w, o, args, used, fuel).result.OutOfFuel?
    ensures Continue(w, o, args, used, more) == Continue(w, o, args, used, fuel)
    decreases fuel, |args|, 0
  {
    if o.result.Done? {
      MoreFuel(w, o.state, o.result.value, args[used..], fuel, more);
    }
  }

  /** Running out of fuel is this model's own outcome; nothing it calls produces it. */
  ghost predicate NeverOutOfFuel<S(!new)>(w: World<S>) {
    && (forall s, c, x :: !w.body(s, c, x).result.OutOfFuel?)
    && (forall s, c, xs :: !w.prim(s, c, xs).result.OutOfFuel?)
    && (forall s, x :: !w.force(s, x).result.OutOfFuel?)
  }

  /* The loop itself */

  /** `makeAppChain`. */
  method MakeAppChain(f: Value, args: seq<Arg>) returns (r: Value)
    requires f.PrimOp? || f.PrimOpApp?
    requires ChainLength(f) + |args| < Head(f).arity
    ensures r == Chain(f, args)
  {
    r := f;
    for i := 0 to |args|
      invariant Chain(r, args[i..]) == Chain(f, args)
      invariant (r.PrimOp? || r.PrimOpApp?) && Head(r) == Head(f) && ChainLength(r) == ChainLength(f) + i
    {
      ChainWellFormed(r, [args[i]]);
      assert args[i..][1..] == args[i + 1..];
      r := PrimOpApp(r, args[i]);
    }
  }

  /** The arguments of a chain, written from the back to the front of an array. */
  method WriteChain(f: Value, vArgs: array<Arg>)
    requires ChainLength(f) <= vArgs.Length
    modifies vArgs
    ensures vArgs[..ChainLength(f)] == ChainArgs(f)
  {
    var argsDone := ChainLength(f);
    var n, arg: AnyValue := argsDone, f;
    while arg.PrimOpApp?
      invariant n == ChainLength(arg) && n <= argsDone <= vArgs.Length
      invariant ChainArgs(arg) + vArgs[n..argsDone] == ChainArgs(f)
      decreases arg
    {
      n := n - 1;
      vArgs[n] := arg.right;
      assert vArgs[n..argsDone] == [arg.right] + vArgs[n + 1..argsDone];
      arg := arg.left;
    }
  }

  /** `vArgs`: the arguments of the chain followed by the new ones, in an array with room
      for the largest arity. */
  method CollectArgs(f: Value, args: seq<Arg>) returns (collected: seq<Arg>)
    requires f.PrimOpApp? && |args| == Head(f).arity - ChainLength(f)
    ensures collected == ChainArgs(f) + args
  {
    var vArgs := new Arg[MAX_ARITY];
    var argsDone := ChainLength(f);
    WriteChain(f, vArgs);
    ghost var done := vArgs[..argsDone];
    for i := 0 to |args|
      invariant vArgs[..argsDone] == done
      invariant forall k :: 0 <= k < i ==> vArgs[argsDone + k] == args[k]
    {
      vArgs[argsDone + i] := args[i];
    }
    collected := vArgs[..argsDone + |args|];
    assert collected[..argsDone] == done && collected[argsDone..] == args;
  }

  /** `callFunction`: the loop that consumes the arguments. */
  method CallFunction<S>(w: World<S>, start: S, f: Value, arguments: seq<Arg>, fuel: nat) returns (o: Out<S>)
    ensures o == Call(w, start, f, arguments, fuel)
    decreases fuel
  {
    var args := arguments;
    o := Out(start, Done(f));
    while |args| > 0
      invariant o.result.Done?
      invariant Call(w, o.state, o.result.value, args, fuel) == Call(w, start, f, arguments, fuel)
      decreases |args|
    {
      var cur, used := o.result.value, 1;
      if cur.Lambda? {
        o := w.body(o.state, cur.code, args[0]);
      } else if cur.PrimOp? {
        if |args| < cur.arity {
          var chain := MakeAppChain(cur, args);
          return Out(o.state, Done(chain));
        }
        used := cur.arity;
        o := w.prim(o.state, cur.code, args[..used]);
      } else if cur.PrimOpApp? {
        used := Head(cur).arity - ChainLength(cur);
        if |args| < used {
          var chain := MakeAppChain(cur, args);
          return Out(o.state, Done(chain));
        }
        var vArgs := CollectArgs(cur, args[..used]);
        o := w.prim(o.state, Head(cur).code, vArgs);
      } else if cur.Set? && cur.functor.Some? {
        if fuel == 0 {
          return Out(o.state, OutOfFuel);
        }
        var (s1, self) := w.alloc(o.state, cur);
        o := w.force(s1, cur.functor.value);
        if !o.result.Done? {
          return;
        }
        o := CallFunction(w, o.state, o.result.value, [self, args[0]], fuel - 1);
      } else {
        return Out(o.state, Error);
      }
      if !o.result.Done? {
        return;
      }
      args := args[used..];
    }
  }
}
