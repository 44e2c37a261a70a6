/** Programs whose `inherit (from)` definitions lose their source when sets are merged. */
module Crossed {
  import opened Common
  import opened Syntax
  import opened Binder
  import opened Annotation
  import opened Parser
  import opened Merging
  import opened Runtime

  const A: Symbol := 10
  const P: Symbol := 11
  const Q: Symbol := 12
  const R: Symbol := 13
  const S: Symbol := 14

  /** `{ p = 0; }`, `{ q = 1; r = 2; }` and `{ q = 3; s = 4; }`, as they are written. */
  const X := SSet(false, [Define([], Static(P), SInt(0))])
  const Y := SSet(false, [Define([], Static(Q), SInt(1)), Define([], Static(R), SInt(2))])
  const Z := SSet(false, [Define([], Static(Q), SInt(3)), Define([], Static(S), SInt(4))])

  function From(source: Syn, names: seq<Symbol>): Binding {
    Define([], Static(A), SSet(false, [Binding.InheritFrom(source, names)]))
  }

  /** `{ a = { inherit (x) p; }; a = { inherit (y) q r; }; }` */
  const TWO := SSet(false, [From(X, [P]), From(Y, [Q, R])])
  /** The same with `a = { inherit (z) s; };` besides. */
  const THREE := SSet(false, [From(X, [P]), From(Y, [Q, R]), From(Z, [S])])

  const XE := Attrs(false, [AttrDef(P, Plain, Int(0))], [], [])
  const YE := Attrs(false, [AttrDef(Q, Plain, Int(1)), AttrDef(R, Plain, Int(2))], [], [])
  const ZE := Attrs(false, [AttrDef(Q, Plain, Int(3)), AttrDef(S, Plain, Int(4))], [], [])

  function Pick(name: Symbol, displ: nat, own: nat): AttrDef {
    AttrDef(name, AttrKind.InheritedFrom, Select(Expr.InheritFrom(displ, own), [name], None))
  }

  const TWO_A := Attrs(false, [Pick(P, 0, 0), Pick(Q, 2, 1), Pick(R, 2, 1)], [XE, YE], [])
  const THREE_A := Attrs(false, [Pick(P, 0, 0), Pick(Q, 2, 1), Pick(R, 2, 1), Pick(S, 2, 2)], [XE, YE, ZE], [])

  /* Step by step through the parser */

  lemma {:induction false} DefineStatic(name: Symbol, x: Syn, acc: Expr)
    requires acc.Attrs? && Parse(x).Parsed?
    ensures ParseBind(Define([], Static(name), x), acc) ==
      match AddDef(acc, AttrDef(name, Plain, Parse(x).value))
      case Parsed(r, crossed) => Parsed(r, Parse(x).crossed || crossed)
      case Rejected(error) => Rejected(error)
  {
    var b := Define([], Static(name), x);
    assert ParseNames(b, []) == Parsed([], false);
  }

  lemma {:induction false} BindStep(parent: Syn, binds: seq<Binding>, acc: Expr, e: Expr, crossed: bool)
    requires acc.Attrs? && e.Attrs? && binds != [] && forall b :: b in binds ==> b < parent
    requires ParseBind(binds[0], acc) == Parsed(e, crossed)
    ensures forall b :: b in binds[1..] ==> b < parent
    ensures ParseBinds(parent, binds, acc) ==
      match ParseBinds(parent, binds[1..], e)
      case Parsed(r, crossed') => Parsed(r, crossed || crossed')
      case Rejected(error) => Rejected(error)
  {
    assert forall b :: b in binds[1..] ==> b in binds;
    var rest := ParseBinds(parent, binds[1..], e);
    if rest.Parsed? {
      assert ParseBinds(parent, binds, acc) == Parsed(rest.value, crossed || rest.crossed);
    } else {
      assert ParseBinds(parent, binds, acc) == Rejected(rest.error);
    }
  }

  lemma {:induction false} BindsSmaller(s: Syn)
    requires s.SSet?
    ensures forall b :: b in s.binds ==> b < s
  {
  }

  lemma {:induction false} LiteralAdded(acc: Expr, name: Symbol, n: int)
    requires acc.Attrs? && Find(acc.defs, name).None?
    ensures ParseBind(Define([], Static(name), SInt(n)), acc)
         == Parsed(WithDefs(acc, Insert(acc.defs, AttrDef(name, Plain, Int(n)))), false)
  {
    DefineStatic(name, SInt(n), acc);
  }

  lemma {:induction false} SingleParsed()
    ensures Parse(X) == Parsed(XE, false)
  {
    LiteralAdded(EMPTY_SET, P, 0);
    assert Insert([], AttrDef(P, Plain, Int(0))) == [AttrDef(P, Plain, Int(0))];
    BindsSmaller(X);
    BindStep(X, X.binds, EMPTY_SET, XE, false);
  }

  /** A set of two literals. */
  lemma {:induction false} PairParsed(a: Symbol, m: int, b: Symbol, n: int)
    requires a < b
    ensures Parse(SSet(false, [Define([], Static(a), SInt(m)), Define([], Static(b), SInt(n))]))
         == Parsed(Attrs(false, [AttrDef(a, Plain, Int(m)), AttrDef(b, Plain, Int(n))], [], []), false)
  {
    var s := SSet(false, [Define([], Static(a), SInt(m)), Define([], Static(b), SInt(n))]);
    var one := Attrs(false, [AttrDef(a, Plain, Int(m))], [], []);
    var two := Attrs(false, [AttrDef(a, Plain, Int(m)), AttrDef(b, Plain, Int(n))], [], []);
    LiteralAdded(EMPTY_SET, a, m);
    assert Insert([], one.defs[0]) == one.defs;
    BindsSmaller(s);
    BindStep(s, s.binds, EMPTY_SET, one, false);
    assert one.defs[1..] == [];
    LiteralAdded(one, b, n);
    assert Insert([], two.defs[1]) == [two.defs[1]];
    assert Insert(one.defs, two.defs[1]) == two.defs;
    BindStep(s, s.binds[1..], one, two, false);
  }

  /** `{ inherit (source) names; }` of up to two names. */
  lemma {:induction false} FromParsed(source: Syn, e: Expr, names: seq<Symbol>)
    requires Parse(source) == Parsed(e, false) && 1 <= |names| <= 2
    requires |names| == 2 ==> names[0] < names[1]
    ensures Parse(SSet(false, [Binding.InheritFrom(source, names)]))
         == Parsed(Attrs(false, seq(|names|, i requires 0 <= i < |names| => Pick(names[i], 0, 0)), [e], []), false)
  {
    var s := SSet(false, [Binding.InheritFrom(source, names)]);
    var start := WithFrom(EMPTY_SET, [e]);
    var one := WithDefs(start, [Pick(names[0], 0, 0)]);
    var all := seq(|names|, i requires 0 <= i < |names| => Pick(names[i], 0, 0));
    assert Insert([], Pick(names[0], 0, 0)) == one.defs;
    assert AddNew(start, Pick(names[0], 0, 0)) == Parsed(one, false);
    if |names| == 2 {
      var two := WithDefs(start, all);
      assert one.defs[1..] == [] && Insert([], Pick(names[1], 0, 0)) == [Pick(names[1], 0, 0)];
      assert Insert(one.defs, Pick(names[1], 0, 0)) == all;
      assert AddNew(one, Pick(names[1], 0, 0)) == Parsed(two, false);
      assert AddFrom(one, 0, names[1..]) == Parsed(two, false);
    } else {
      assert all == one.defs;
    }
    assert AddFrom(start, 0, names) == Parsed(WithDefs(start, all), false);
    assert [] + [e] == [e];
    assert ParseBind(s.binds[0], EMPTY_SET) == Parsed(WithDefs(start, all), false);
    BindsSmaller(s);
    BindStep(s, s.binds, EMPTY_SET, WithDefs(start, all), false);
  }

  lemma {:induction false} InsertLast(defs: seq<AttrDef>, d: AttrDef)
    requires forall c :: c in defs ==> c.name < d.name
    ensures Insert(defs, d) == defs + [d] && Find(defs, d.name).None?
  {
    if defs != [] {
      assert defs[0] in defs;
      InsertLast(defs[1..], d);
    }
  }

  const FROM_X := Attrs(false, [Pick(P, 0, 0)], [XE], [])
  const FROM_Y := Attrs(false, [Pick(Q, 0, 0), Pick(R, 0, 0)], [YE], [])
  const FROM_Z := Attrs(false, [Pick(S, 0, 0)], [ZE], [])

  lemma {:induction false} FromsParsed()
    ensures Parse(From(X, [P]).e) == Parsed(FROM_X, false)
    ensures Parse(From(Y, [Q, R]).e) == Parsed(FROM_Y, false)
    ensures Parse(From(Z, [S]).e) == Parsed(FROM_Z, false)
  {
    SingleParsed();
    PairParsed(Q, 1, R, 2);
    PairParsed(Q, 3, S, 4);
    FromParsed(X, XE, [P]);
    FromParsed(Y, YE, [Q, R]);
    FromParsed(Z, ZE, [S]);
    assert seq(1, i requires 0 <= i < 1 => Pick([P][i], 0, 0)) == FROM_X.defs;
    assert seq(2, i requires 0 <= i < 2 => Pick([Q, R][i], 0, 0)) == FROM_Y.defs;
    assert seq(1, i requires 0 <= i < 1 => Pick([S][i], 0, 0)) == FROM_Z.defs;
  }

  /** Both names of the second group move the node they share. */
  lemma {:induction false} TwoMerged()
    ensures Merge(FROM_X, FROM_Y) == Parsed(TWO_A, true)
  {
    var defs := FROM_Y.defs;
    assert defs[1..] == [Pick(R, 0, 0)];
    assert GroupSize([], 0) == 0;
    assert GroupSize(defs[1..], 0) == 1;
    assert GroupSize(defs, 0) == 2;
    assert Moved(defs, defs[0], 1) == Pick(Q, 2, 1) && Moved(defs, defs[1], 1) == Pick(R, 2, 1);
    var one := WithDefs(FROM_X, [Pick(P, 0, 0), Pick(Q, 2, 1)]);
    var two := WithDefs(FROM_X, TWO_A.defs);
    InsertLast(FROM_X.defs, Pick(Q, 2, 1));
    InsertLast(one.defs, Pick(R, 2, 1));
    assert FROM_X.defs + [Pick(Q, 2, 1)] == one.defs;
    assert one.defs + [Pick(R, 2, 1)] == two.defs;
    assert MergeDef(FROM_X, FROM_Y, 0) == Parsed(one, false);
    assert MergeDef(one, FROM_Y, 1) == Parsed(two, false);
    assert MergeDefs(two, FROM_Y, 2) == Parsed(two, false);
    assert MergeDefs(one, FROM_Y, 1) == Parsed(two, false);
    assert MergeDefs(FROM_X, FROM_Y, 0) == Parsed(two, false);
    assert defs[0] in defs && !OneNameEach(defs);
    assert FROM_X.from + FROM_Y.from == TWO_A.from;
    assert FROM_X.dyn + FROM_Y.dyn == [];
  }

  lemma {:induction false} ThreeMerged()
    ensures Merge(TWO_A, FROM_Z) == Parsed(THREE_A, false)
  {
    var defs := FROM_Z.defs;
    assert GroupSize([], 0) == 0;
    assert GroupSize(defs, 0) == 1;
    assert Moved(defs, defs[0], 2) == Pick(S, 2, 2);
    var all := WithDefs(TWO_A, THREE_A.defs);
    InsertLast(TWO_A.defs, Pick(S, 2, 2));
    assert TWO_A.defs + [Pick(S, 2, 2)] == all.defs;
    assert MergeDef(TWO_A, FROM_Z, 0) == Parsed(all, false);
    assert MergeDefs(all, FROM_Z, 1) == Parsed(all, false);
    assert MergeDefs(TWO_A, FROM_Z, 0) == Parsed(all, false);
    assert OneNameEach(defs);
    assert TWO_A.from + FROM_Z.from == THREE_A.from;
    assert TWO_A.dyn + FROM_Z.dyn == [];
  }

  function Outer(e: Expr): Expr {
    Attrs(false, [AttrDef(A, Plain, e)], [], [])
  }

  /** `a = x;` after an earlier definition of `a`. */
  lemma {:induction false} AgainDefined(b: Binding, e: Expr, x: Expr, merged: Expr, crossed: bool)
    requires b.Define? && b.prefix == [] && b.last == Static(A) && Parse(b.e) == Parsed(x, false)
    requires e.Attrs? && x.Attrs? && Merge(e, x) == Parsed(merged, crossed)
    ensures ParseBind(b, Outer(e)) == Parsed(Outer(merged), crossed)
  {
    DefineStatic(A, b.e, Outer(e));
    assert SetDef(Outer(e), 0, merged) == Outer(merged);
  }

  lemma {:induction false} FirstDefined()
    ensures ParseBind(From(X, [P]), EMPTY_SET) == Parsed(Outer(FROM_X), false)
  {
    FromsParsed();
    DefineStatic(A, From(X, [P]).e, EMPTY_SET);
    assert Insert([], AttrDef(A, Plain, FROM_X)) == [AttrDef(A, Plain, FROM_X)];
  }

  /** In the first program two names get a displacement beyond the sources; in the second it
      is that of another source. */
  lemma {:induction false} CrossedDisplacements()
    ensures Parse(TWO) == Parsed(Outer(TWO_A), true)
    ensures Parse(THREE) == Parsed(Outer(THREE_A), true)
  {
    FirstDefined();
    FromsParsed();
    TwoMerged();
    ThreeMerged();
    BindsSmaller(TWO);
    BindsSmaller(THREE);
    AgainDefined(From(Y, [Q, R]), FROM_X, FROM_Y, TWO_A, true);
    AgainDefined(From(Z, [S]), TWO_A, FROM_Z, THREE_A, false);
    BindStep(TWO, TWO.binds, EMPTY_SET, Outer(FROM_X), false);
    BindStep(TWO, TWO.binds[1..], Outer(FROM_X), Outer(TWO_A), true);
    BindStep(THREE, THREE.binds, EMPTY_SET, Outer(FROM_X), false);
    BindStep(THREE, THREE.binds[1..], Outer(FROM_X), Outer(TWO_A), true);
    BindStep(THREE, THREE.binds[1..][1..], Outer(TWO_A), Outer(THREE_A), false);
  }

  /* Running them */

  /** The frame of a program without names. */
  const TOP := Env([], false, [], None)
  const NOTHING := Heap([], [TOP])

  function Thunks(es: seq<Expr>, env: EnvAddr): (r: seq<Cell>)
    ensures |r| == |es|
  {
    seq(|es|, i requires 0 <= i < |es| => Thunk(es[i], env))
  }

  function Row(first: Addr, n: nat): (r: seq<Addr>)
    ensures |r| == n
  {
    seq(n, i requires 0 <= i < n => first + i)
  }

  function Exprs(defs: seq<AttrDef>): (r: seq<Expr>)
    ensures |r| == |defs|
  {
    seq(|defs|, i requires 0 <= i < |defs| => defs[i].e)
  }

  /** Sets and selections are delayed one after the other. */
  lemma {:induction false} ThunksInRow(m: Mode, es: seq<Expr>, h: Heap, env: EnvAddr)
    requires forall x :: x in es ==> x.Attrs? || x.Select?
    ensures MaybeThunkAll(m, es, h, env) == (Row(|h.cells|, |es|), h.(cells := h.cells + Thunks(es, env)))
  {
    if es == [] {
      assert h.cells + Thunks(es, env) == h.cells;
    } else {
      var h1 := NewCell(h, Thunk(es[0], env)).1;
      assert es[0] in es;
      ThunksInRow(m, es[1..], h1, env);
      assert [|h.cells|] + Row(|h.cells| + 1, |es| - 1) == Row(|h.cells|, |es|);
      assert h1.cells + Thunks(es[1..], env) == h.cells + Thunks(es, env);
    }
  }

  lemma {:induction false} DefsInRow(
      m: Mode, defs: seq<AttrDef>, h: Heap, env: EnvAddr, source: EnvAddr, kind: AttrKind)
    requires forall d :: d in defs ==> (d.e.Attrs? || d.e.Select?) && d.kind == kind
    ensures PlainDefs(m, defs, h, env, source) ==
      (Row(|h.cells|, |defs|), h.(cells := h.cells + Thunks(Exprs(defs), ChooseEnv(kind, env, env, source))))
  {
    var at := ChooseEnv(kind, env, env, source);
    if defs == [] {
      assert h.cells + Thunks(Exprs(defs), at) == h.cells;
    } else {
      var h1 := NewCell(h, Thunk(defs[0].e, at)).1;
      assert defs[0] in defs;
      DefsInRow(m, defs[1..], h1, env, source, kind);
      assert [|h.cells|] + Row(|h.cells| + 1, |defs| - 1) == Row(|h.cells|, |defs|);
      assert h1.cells + Thunks(Exprs(defs[1..]), at) == h.cells + Thunks(Exprs(defs), at);
    }
  }

  lemma {:induction false} ZipAt(defs: seq<AttrDef>, addrs: seq<Addr>, i: nat)
    requires |defs| == |addrs| && i < |defs|
    requires forall j, k :: 0 <= j < k < |defs| ==> defs[j].name < defs[k].name
    ensures defs[i].name in Zip(defs, addrs) && Zip(defs, addrs)[defs[i].name] == addrs[i]
  {
    if i > 0 {
      ZipAt(defs[1..], addrs[1..], i - 1);
    }
  }

  /** The heap once the inner set has been built: the sources and the definitions, delayed. */
  function Built(inner: Expr): Heap
    requires inner.Attrs?
  {
    Heap([Blackhole] + Thunks(inner.from, 0) + Thunks(Exprs(inner.defs), 1),
         [TOP, Env([], false, FullSlots(Row(1, |inner.from|)), Some(0))])
  }

  ghost predicate AllPicked(e: Expr) {
    && e.Attrs? && !e.recursive && e.dyn == [] && e.from != []
    && (forall x :: x in e.from ==> x.Attrs?)
    && (forall d :: d in e.defs ==> d.e.Select? && d.kind.InheritedFrom?)
    && forall j, k :: 0 <= j < k < |e.defs| ==> e.defs[j].name < e.defs[k].name
  }

  lemma {:induction false} InnerBuilt(m: Mode, e: Expr, fuel: nat)
    requires AllPicked(e) && fuel > 2
    ensures Eval(m, e, Heap([Blackhole], [TOP]), 0, fuel)
         == Out(Ok(VAttrs(Zip(e.defs, Row(1 + |e.from|, |e.defs|)))), Built(e))
  {
    var h := Heap([Blackhole], [TOP]);
    ThunksInRow(m, e.from, h, 0);
    var h1 := h.(cells := h.cells + Thunks(e.from, 0));
    var (source, h2) := SourceFrame(m, e.from, h, 0);
    assert h2 == Heap(h1.cells, [TOP, Env([], false, FullSlots(Row(1, |e.from|)), Some(0))]) && source == 1;
    DefsInRow(m, e.defs, h2, 0, 1, AttrKind.InheritedFrom);
  }

  lemma {:induction false} OuterEval(m: Mode, e: Expr, fuel: nat)
    requires AllPicked(e) && fuel > 5
    ensures var h, v := Heap([Thunk(e, 0)], [TOP]), VAttrs(Zip(e.defs, Row(1 + |e.from|, |e.defs|)));
      && Eval(m, Outer(e), NOTHING, 0, fuel) == Out(Ok(VAttrs(map[A := 0])), h)
      && Force(m, 0, h, fuel) == Out(Ok(v), SetCell(Built(e), 0, Done(v)))
  {
    var defs := Outer(e).defs;
    DefsInRow(m, defs, NOTHING, 0, 0, Plain);
    assert Thunks(Exprs(defs), 0) == [Thunk(e, 0)] && Row(0, 1) == [0];
    assert Zip(defs, [0]) == map[A := 0] by {
      assert Zip(defs[1..], [0][1..]) == map[];
    }
    assert [] + [Thunk(e, 0)] == [Thunk(e, 0)];
    var h := Heap([Thunk(e, 0)], [TOP]);
    assert SetCell(h, 0, Blackhole) == Heap([Blackhole], [TOP]);
    InnerBuilt(m, e, fuel - 1);
  }

  function Pair(a: Symbol, x: int, b: Symbol, y: int): Expr {
    Attrs(false, [AttrDef(a, Plain, Int(x)), AttrDef(b, Plain, Int(y))], [], [])
  }

  lemma {:induction false} PairEval(m: Mode, a: Symbol, x: int, b: Symbol, y: int, h: Heap, fuel: nat)
    requires a != b && fuel > 1
    ensures Eval(m, Pair(a, x, b, y), h, 0, fuel) ==
      Out(Ok(VAttrs(map[a := |h.cells|, b := |h.cells| + 1])), h.(cells := h.cells + [Done(VInt(x)), Done(VInt(y))]))
  {
    var defs := Pair(a, x, b, y).defs;
    var h1 := h.(cells := h.cells + [Done(VInt(x))]);
    var h2 := h.(cells := h.cells + [Done(VInt(x)), Done(VInt(y))]);
    assert h1.cells + [Done(VInt(y))] == h2.cells;
    assert defs[1..][1..] == [];
    assert PlainDefs(m, [], h2, 0, 0) == ([], h2);
    assert [|h.cells| + 1] + [] == [|h.cells| + 1];
    assert DefThunk(m, defs[1], false, h1, 0, 0, 0) == (|h.cells| + 1, h2);
    assert PlainDefs(m, defs[1..], h1, 0, 0) == ([|h.cells| + 1], h2);
    assert DefThunk(m, defs[0], false, h, 0, 0, 0) == (|h.cells|, h1);
    assert [|h.cells|] + [|h.cells| + 1] == [|h.cells|, |h.cells| + 1];
    assert PlainDefs(m, defs, h, 0, 0) == ([|h.cells|, |h.cells| + 1], h2);
    var addrs := [|h.cells|, |h.cells| + 1];
    assert Zip(defs[1..][1..], addrs[1..][1..]) == map[];
    assert Zip(defs[1..], addrs[1..]) == map[b := |h.cells| + 1];
    assert Zip(defs, addrs) == map[a := |h.cells|, b := |h.cells| + 1];
  }

  /** A definition read through slot `k` of the frame of sources, which is a pair or not there. */
  lemma {:induction false} PickForced(m: Mode, e: Expr, i: nat, k: nat, x: int, b: Symbol, y: int, v: Value, fuel: nat)
    requires AllPicked(e) && i < |e.defs| && fuel > 8
    requires SelectsSource(e.defs[i])
    requires k == if m.ByName? then e.defs[i].e.e.own else e.defs[i].e.e.displ
    requires b != e.defs[i].name
    requires k < |e.from| ==> e.from[k] == Pair(e.defs[i].name, x, b, y)
    ensures Force(m, 1 + |e.from| + i, SetCell(Built(e), 0, Done(v)), fuel).r
         == if k < |e.from| then Ok(VInt(x)) else Err(Crash)
  {
    var name, c, h := e.defs[i].name, 1 + |e.from| + i, SetCell(Built(e), 0, Done(v));
    var h1 := SetCell(h, c, Blackhole);
    assert h.cells[c] == Thunk(e.defs[i].e, 1);
    assert h1.envs[1].slots == FullSlots(Row(1, |e.from|));
    if k < |e.from| {
      assert ReadSlot(h1, 1, k) == Slot(1 + k);
      assert h1.cells[1 + k] == Thunk(e.from[k], 0);
      var h2 := SetCell(h1, 1 + k, Blackhole);
      PairEval(m, name, x, b, y, h2, fuel - 4);
      var n := |h2.cells|;
      var h3 := h2.(cells := h2.cells + [Done(VInt(x)), Done(VInt(y))]);
      var found := VAttrs(map[name := n, b := n + 1]);
      var h4 := SetCell(h3, 1 + k, Done(found));
      assert Force(m, 1 + k, h1, fuel - 3) == Out(Ok(found), h4);
      assert Eval(m, e.defs[i].e.e, h1, 1, fuel - 2) == Out(Ok(found), h4);
      assert h4.cells[n] == Done(VInt(x));
      assert SelectPath(m, found, [name], None, h4, 1, fuel - 2) == Out(Ok(VInt(x)), h4) by {
        assert SelectPath(m, VInt(x), [name][1..], None, h4, 1, fuel - 3) == Out(Ok(VInt(x)), h4);
      }
    } else {
      assert ReadSlot(h1, 1, k) == Bad;
      assert Eval(m, e.defs[i].e.e, h1, 1, fuel - 2).r == Err(Crash);
    }
  }

  /** `set.a.name`. */
  lemma {:induction false} PickRun(m: Mode, e: Expr, i: nat, fuel: nat)
    requires AllPicked(e) && i < |e.defs| && fuel > 12
    ensures var v := VAttrs(Zip(e.defs, Row(1 + |e.from|, |e.defs|)));
      Eval(m, Select(Outer(e), [A, e.defs[i].name], None), NOTHING, 0, fuel).r
      == Force(m, 1 + |e.from| + i, SetCell(Built(e), 0, Done(v)), fuel - 3).r
  {
    var name, v := e.defs[i].name, VAttrs(Zip(e.defs, Row(1 + |e.from|, |e.defs|)));
    var h := SetCell(Built(e), 0, Done(v));
    OuterEval(m, e, fuel - 1);
    OuterEval(m, e, fuel - 2);
    ZipAt(e.defs, Row(1 + |e.from|, |e.defs|), i);
    assert [A, name][1..] == [name] && [name][1..] == [];
    var o := Force(m, 1 + |e.from| + i, h, fuel - 3);
    assert SelectPath(m, v, [name], None, h, 0, fuel - 2).r == o.r by {
      if o.r.Ok? {
        assert SelectPath(m, o.r.value, [], None, o.h, 0, fuel - 3) == Out(o.r, o.h);
      }
    }
  }

  /** Asked for `a.q`, both programs should answer 1. Following the displacement leaves the
      frame in the first, and finds another source in the second. */
  lemma {:induction false} CrossedGoesWrong(notes: Notes)
    ensures Parse(SSelect(TWO, [A, Q], None)) == Parsed(Select(Outer(TWO_A), [A, Q], None), true)
    ensures Parse(SSelect(THREE, [A, Q], None)) == Parsed(Select(Outer(THREE_A), [A, Q], None), true)
    ensures Eval(ByName, Select(Outer(TWO_A), [A, Q], None), NOTHING, 0, 20).r == Ok(VInt(1))
    ensures Eval(ByIndex(notes), Select(Outer(TWO_A), [A, Q], None), NOTHING, 0, 20).r == Err(Crash)
    ensures Eval(ByName, Select(Outer(THREE_A), [A, Q], None), NOTHING, 0, 20).r == Ok(VInt(1))
    ensures Eval(ByIndex(notes), Select(Outer(THREE_A), [A, Q], None), NOTHING, 0, 20).r == Ok(VInt(3))
  {
    CrossedParsed();
    CrossedRun(ByName);
    CrossedRun(ByIndex(notes));
  }

  lemma {:induction false} CrossedParsed()
    ensures Parse(SSelect(TWO, [A, Q], None)) == Parsed(Select(Outer(TWO_A), [A, Q], None), true)
    ensures Parse(SSelect(THREE, [A, Q], None)) == Parsed(Select(Outer(THREE_A), [A, Q], None), true)
  {
    CrossedDisplacements();
    var two, three := SSelect(TWO, [A, Q], None), SSelect(THREE, [A, Q], None);
    assert [TWO][1..] == [] && [THREE][1..] == [];
    assert ParseAll(two, []) == Parsed([], false) && ParseAll(three, []) == Parsed([], false);
    assert [Outer(TWO_A)] + [] == [Outer(TWO_A)] && [Outer(THREE_A)] + [] == [Outer(THREE_A)];
    assert ParseAll(two, [TWO]) == Parsed([Outer(TWO_A)], true);
    assert ParseAll(three, [THREE]) == Parsed([Outer(THREE_A)], true);
  }

  lemma {:induction false} CrossedRun(m: Mode)
    ensures Eval(m, Select(Outer(TWO_A), [A, Q], None), NOTHING, 0, 20).r
         == if m.ByName? then Ok(VInt(1)) else Err(Crash)
    ensures Eval(m, Select(Outer(THREE_A), [A, Q], None), NOTHING, 0, 20).r
         == Ok(VInt(if m.ByName? then 1 else 3))
  {
    TwoRun(m);
    ThreeRun(m);
  }

  lemma {:induction false} TwoRun(m: Mode)
    ensures Eval(m, Select(Outer(TWO_A), [A, Q], None), NOTHING, 0, 20).r
         == if m.ByName? then Ok(VInt(1)) else Err(Crash)
  {
    hide Force, Eval, Built, Zip, SetCell;
    PickRun(m, TWO_A, 1, 20);
    PickForced(m, TWO_A, 1, if m.ByName? then 1 else 2, 1, R, 2, VAttrs(Zip(TWO_A.defs, Row(3, 3))), 17);
  }

  lemma {:induction false} ThreeRun(m: Mode)
    ensures Eval(m, Select(Outer(THREE_A), [A, Q], None), NOTHING, 0, 20).r
         == Ok(VInt(if m.ByName? then 1 else 3))
  {
    hide Force, Eval, Built, Zip, SetCell;
    var v := VAttrs(Zip(THREE_A.defs, Row(4, 4)));
    PickRun(m, THREE_A, 1, 20);
    if m.ByName? {
      PickForced(m, THREE_A, 1, 1, 1, R, 2, v, 17);
    } else {
      PickForced(m, THREE_A, 1, 2, 3, S, 4, v, 17);
    }
  }
}
