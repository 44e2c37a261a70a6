/** What the rules say of names, delayed expressions and frames is what the evaluator that looks
    names up computes. */
module MeaningFrames {
  import opened Common
  import opened Syntax
  import opened Runtime
  import opened Meaning

  /* Names */

  lemma {:induction false} FirstIsIndex(names: seq<Symbol>, name: Symbol, i: nat)
    ensures FirstAt(names, name, i) <==> IndexOf(names, name) == Some(i)
    decreases |names|
  {
    if names != [] && names[0] != name {
      if i > 0 {
        FirstIsIndex(names[1..], name, i - 1);
        if FirstAt(names[1..], name, i - 1) {
          forall j | 0 <= j < i
            ensures names[j] != name
          {
            assert j > 0 ==> names[1..][j - 1] == names[j];
          }
        }
      }
    }
  }

  /** One frame up. */
  ghost predicate Parent(h: Heap, env: EnvAddr, up: EnvAddr) {
    env < |h.envs| && h.envs[env].up == Some(up) && up < env
  }

  ghost predicate Topmost(f: Env, env: EnvAddr) {
    f.up.Some? ==> f.up.value >= env
  }

  lemma {:induction false} NearestAbove(h: Heap, env: EnvAddr, up: EnvAddr, name: Symbol, k: nat)
    requires Parent(h, env, up) && !Binds(h.envs[env], name)
    ensures !NearestAt(h, env, name, 0)
    ensures NearestAt(h, env, name, k + 1) <==> NearestAt(h, up, name, k)
  {
    var c, d := Chain(h, env), Chain(h, up);
    assert c == [env] + d;
    forall j | 0 <= j < |d|
      ensures c[j + 1] == d[j]
    {
    }
    if NearestAt(h, env, name, k + 1) {
      forall j | 0 <= j < k
        ensures !Binds(h.envs[d[j]], name)
      {
        assert c[j + 1] == d[j];
      }
    }
    if NearestAt(h, up, name, k) {
      forall j | 0 <= j < k + 1
        ensures !Binds(h.envs[c[j]], name)
      {
        assert j > 0 ==> c[j] == d[j - 1];
      }
    }
  }

  lemma {:induction false} BoundAbove(h: Heap, env: EnvAddr, up: EnvAddr, name: Symbol, f: EnvAddr, i: nat)
    requires Parent(h, env, up) && !Binds(h.envs[env], name)
    ensures BoundAt(h, env, name, f, i) <==> BoundAt(h, up, name, f, i)
  {
    var c, d := Chain(h, env), Chain(h, up);
    assert c == [env] + d;
    if BoundAt(h, env, name, f, i) {
      var k :| NearestAt(h, env, name, k) && c[k] == f && FirstAt(h.envs[f].names, name, i);
      NearestAbove(h, env, up, name, if k == 0 then 0 else k - 1);
      assert NearestAt(h, up, name, k - 1) && d[k - 1] == f;
    }
    if BoundAt(h, up, name, f, i) {
      var k :| NearestAt(h, up, name, k) && d[k] == f && FirstAt(h.envs[f].names, name, i);
      NearestAbove(h, env, up, name, k);
      assert NearestAt(h, env, name, k + 1) && c[k + 1] == f;
    }
  }

  lemma {:induction false} UnboundAbove(h: Heap, env: EnvAddr, up: EnvAddr, name: Symbol)
    requires Parent(h, env, up) && !Binds(h.envs[env], name)
    ensures Unbound(h, env, name) <==> Unbound(h, up, name)
  {
    var c, d := Chain(h, env), Chain(h, up);
    assert c == [env] + d;
    assert d != [];
    assert c[|c| - 1] == d[|d| - 1];
    forall j | 0 <= j < |d|
      ensures c[j + 1] == d[j]
    {
    }
    if Unbound(h, up, name) {
      forall j | 0 <= j < |c|
        ensures !Binds(h.envs[c[j]], name)
      {
        assert j > 0 ==> c[j] == d[j - 1];
      }
    }
    if Unbound(h, env, name) {
      forall j | 0 <= j < |d|
        ensures !Binds(h.envs[d[j]], name)
      {
        assert c[j + 1] == d[j];
      }
    }
  }

  lemma {:induction false} BoundHere(h: Heap, env: EnvAddr, name: Symbol, f: EnvAddr, i: nat)
    requires env < |h.envs| && Binds(h.envs[env], name)
    ensures BoundAt(h, env, name, f, i) <==> f == env && IndexOf(h.envs[env].names, name) == Some(i)
    ensures !Unbound(h, env, name)
  {
    var c := Chain(h, env);
    assert c[0] == env;
    assert NearestAt(h, env, name, 0);
    FirstIsIndex(h.envs[env].names, name, i);
  }

  lemma {:induction false} BoundNowhere(h: Heap, env: EnvAddr, name: Symbol)
    requires env < |h.envs| ==> !Binds(h.envs[env], name) && Topmost(h.envs[env], env)
    ensures forall f: nat, i: nat :: !BoundAt(h, env, name, f, i)
    ensures Unbound(h, env, name) <==> env < |h.envs| && h.envs[env].up.None?
  {
    var c := Chain(h, env);
    if env < |h.envs| {
      assert c == [env];
    }
  }

  /** The slot a name stands for: the first one of that name in the innermost frame that binds
      it. */
  ghost predicate Denotes(h: Heap, env: EnvAddr, name: Symbol, a: Addr) {
    exists f: nat, i: nat :: BoundAt(h, env, name, f, i) && Holds(h, f, i, a)
  }

  lemma {:induction false} DenotesAbove(h: Heap, env: EnvAddr, up: EnvAddr, name: Symbol, a: Addr)
    requires Parent(h, env, up) && !Binds(h.envs[env], name)
    ensures Denotes(h, env, name, a) <==> Denotes(h, up, name, a)
  {
    forall f: nat, i: nat
      ensures BoundAt(h, env, name, f, i) <==> BoundAt(h, up, name, f, i)
    {
      BoundAbove(h, env, up, name, f, i);
    }
  }

  /** By-name lookup is lexical scoping. */
  lemma {:induction false} NameSlotExact(h: Heap, env: EnvAddr, name: Symbol, a: Addr)
    ensures Denotes(h, env, name, a) <==> NameSlot(h, env, name) == Slot(a)
    ensures Unbound(h, env, name) <==> NameSlot(h, env, name) == NotLexical
    decreases env
  {
    if env < |h.envs| && Binds(h.envs[env], name) {
      var i := IndexOf(h.envs[env].names, name);
      forall f: nat, j: nat
        ensures BoundAt(h, env, name, f, j) <==> f == env && i == Some(j)
      {
        BoundHere(h, env, name, f, j);
      }
      BoundHere(h, env, name, env, i.value);
    } else if env < |h.envs| && h.envs[env].up.Some? && h.envs[env].up.value < env {
      var up := h.envs[env].up.value;
      NameSlotExact(h, up, name, a);
      DenotesAbove(h, env, up, name, a);
      UnboundAbove(h, env, up, name);
      NameSlotUp(h, env, up, name);
    } else {
      BoundNowhere(h, env, name);
      NameSlotNowhere(h, env, name);
    }
  }

  lemma {:induction false} NameSlotUp(h: Heap, env: EnvAddr, up: EnvAddr, name: Symbol)
    requires Parent(h, env, up) && !Binds(h.envs[env], name)
    ensures NameSlot(h, env, name) == NameSlot(h, up, name)
  {
    var f := h.envs[env];
    assert f.isWith || IndexOf(f.names, name).None?;
  }

  lemma {:induction false} NameSlotNowhere(h: Heap, env: EnvAddr, name: Symbol)
    requires env < |h.envs| ==> !Binds(h.envs[env], name) && Topmost(h.envs[env], env)
    ensures NameSlot(h, env, name) == if env < |h.envs| && h.envs[env].up.None? then NotLexical else Bad
  {
    if env < |h.envs| {
      var f := h.envs[env];
      assert f.isWith || IndexOf(f.names, name).None?;
    }
  }

  /** The innermost `with` frame is the one the search starts at. */
  lemma {:induction false} NextWithExact(h: Heap, env: EnvAddr, w: EnvAddr)
    ensures InnermostWith(h, env, w) <==> NextWith(h, env) == Some(w)
    ensures NoWith(h, env) <==> NextWith(h, env) == None
    decreases env
  {
    var c := Chain(h, env);
    if env < |h.envs| {
      assert c[0] == env;
      if h.envs[env].isWith {
        assert InnermostWithAt(h, env, 0);
      } else if h.envs[env].up.Some? && h.envs[env].up.value < env {
        var up := h.envs[env].up.value;
        NextWithExact(h, up, w);
        WithAbove(h, env, up, w);
        NoWithAbove(h, env, up);
      }
    }
  }

  lemma {:induction false} WithAtAbove(h: Heap, env: EnvAddr, up: EnvAddr, k: nat)
    requires Parent(h, env, up) && !h.envs[env].isWith
    ensures !InnermostWithAt(h, env, 0)
    ensures InnermostWithAt(h, env, k + 1) <==> InnermostWithAt(h, up, k)
  {
    var c, d := Chain(h, env), Chain(h, up);
    assert c == [env] + d;
    assert c[0] == env;
    if InnermostWithAt(h, env, k + 1) {
      assert c[k + 1] == d[k];
      forall j | 0 <= j < k ensures !h.envs[d[j]].isWith { assert c[j + 1] == d[j]; }
    }
    if InnermostWithAt(h, up, k) {
      assert c[k + 1] == d[k];
      forall j | 0 <= j < k + 1 ensures !h.envs[c[j]].isWith { assert j > 0 ==> c[j] == d[j - 1]; }
    }
  }

  lemma {:induction false} WithAbove(h: Heap, env: EnvAddr, up: EnvAddr, w: EnvAddr)
    requires Parent(h, env, up) && !h.envs[env].isWith
    ensures InnermostWith(h, env, w) <==> InnermostWith(h, up, w)
  {
    var c, d := Chain(h, env), Chain(h, up);
    assert c == [env] + d;
    hide InnermostWithAt;
    if InnermostWith(h, env, w) {
      var k :| InnermostWithAt(h, env, k) && c[k] == w;
      WithAtInChain(h, env, k);
      WithAtAbove(h, env, up, if k == 0 then 0 else k - 1);
      assert InnermostWithAt(h, up, k - 1) && d[k - 1] == w;
    }
    if InnermostWith(h, up, w) {
      var k :| InnermostWithAt(h, up, k) && d[k] == w;
      WithAtInChain(h, up, k);
      WithAtAbove(h, env, up, k);
      assert InnermostWithAt(h, env, k + 1) && c[k + 1] == w;
    }
  }

  lemma WithAtInChain(h: Heap, env: EnvAddr, k: int)
    requires InnermostWithAt(h, env, k)
    ensures 0 <= k < |Chain(h, env)|
  {
  }

  lemma {:induction false} NoWithAbove(h: Heap, env: EnvAddr, up: EnvAddr)
    requires Parent(h, env, up) && !h.envs[env].isWith
    ensures NoWith(h, env) <==> NoWith(h, up)
  {
    var c, d := Chain(h, env), Chain(h, up);
    assert c == [env] + d;
    if NoWith(h, env) {
      forall j | 0 <= j < |d| ensures !h.envs[d[j]].isWith { assert c[j + 1] == d[j]; }
    }
    if NoWith(h, up) {
      forall j | 0 <= j < |c| ensures !h.envs[c[j]].isWith { assert j > 0 ==> c[j] == d[j - 1]; }
    }
  }

  /* Heaps */

  lemma RewrittenIsSet(h: Heap, a: Addr, c: Cell)
    ensures Rewritten(h, a, c) == SetCell(h, a, c)
  {
    assert Rewritten(h, a, c).cells == SetCell(h, a, c).cells;
  }

  lemma FilledIsSet(h: Heap, f: EnvAddr, i: nat, a: Addr)
    ensures Filled(h, f, i, a) == SetSlot(h, f, i, a)
  {
    var x, y := Filled(h, f, i, a), SetSlot(h, f, i, a);
    assert |x.envs| == |y.envs| == |h.envs|;
    forall e | 0 <= e < |h.envs|
      ensures x.envs[e] == y.envs[e]
    {
      assert x.envs[e].slots == y.envs[e].slots;
    }
    assert x.envs == y.envs;
  }

  lemma HoldsIsRead(h: Heap, f: EnvAddr, i: nat, a: Addr)
    ensures Holds(h, f, i, a) <==> ReadSlot(h, f, i) == Slot(a)
  {
  }

  lemma FullIsFilled(addrs: seq<Addr>)
    ensures AllFilled(addrs) == FullSlots(addrs)
  {
  }

  lemma NamesAreNames(defs: seq<AttrDef>)
    ensures DefNamesOf(defs) == NamesOf(defs)
  {
  }

  /* Delaying */

  lemma {:induction false} SharesExactly(e: Expr, h: Heap, env: EnvAddr, a: Addr)
    ensures Shares(e, h, env, a) <==>
            (e.Var? && NameSlot(h, env, e.name) == Slot(a))
            || (e.InheritFrom? && SourceSlot(ByName, e.displ, e.own, h, env) == Slot(a))
  {
    if e.Var? {
      NameSlotExact(h, env, e.name, a);
      assert Denotes(h, env, e.name, a) <==> Shares(e, h, env, a);
    }
  }

  /** The rule for delaying an expression is `maybeThunk`. */
  lemma {:induction false} DelayedExactly(e: Expr, h: Heap, env: EnvAddr, a: Addr, h1: Heap)
    ensures Delayed(e, h, env, a, h1) <==> (a, h1) == MaybeThunk(ByName, e, h, env)
  {
    forall b
      ensures Shares(e, h, env, b) <==>
              (e.Var? && NameSlot(h, env, e.name) == Slot(b))
              || (e.InheritFrom? && SourceSlot(ByName, e.displ, e.own, h, env) == Slot(b))
    {
      SharesExactly(e, h, env, b);
    }
    hide NameSlot, Shares;
    match e
    case Var(id, name) =>
      if NameSlot(h, env, name).Slot? {
        assert Shares(e, h, env, NameSlot(h, env, name).a);
      }
    case InheritFrom(displ, own) =>
      if SourceSlot(ByName, displ, own, h, env).Slot? {
        assert Shares(e, h, env, SourceSlot(ByName, displ, own, h, env).a);
      }
    case _ =>
  }

  lemma {:induction false} Nothing(h: Heap, env: EnvAddr, addrs: seq<Addr>, h1: Heap)
    ensures AllDelayed([], h, env, addrs, h1) <==> (addrs, h1) == ([], h)
  {
    assert DelayedThrough([], env, [], [h]);
  }

  lemma {:induction false} AllDelayedFirst(es: seq<Expr>, h: Heap, env: EnvAddr, addrs: seq<Addr>, h1: Heap)
    requires es != []
    ensures AllDelayed(es, h, env, addrs, h1) <==>
            addrs != []
            && exists mid :: Delayed(es[0], h, env, addrs[0], mid) && AllDelayed(es[1..], mid, env, addrs[1..], h1)
  {
    hide Delayed;
    if AllDelayed(es, h, env, addrs, h1) {
      var hs: seq<Heap> :| DelayedThrough(es, env, addrs, hs) && hs[0] == h && hs[|es|] == h1;
      forall i | 0 <= i < |es[1..]|
        ensures Delayed(es[1..][i], hs[1..][i], env, addrs[1..][i], hs[1..][i + 1])
      {
        assert Delayed(es[i + 1], hs[i + 1], env, addrs[i + 1], hs[i + 2]);
      }
      assert DelayedThrough(es[1..], env, addrs[1..], hs[1..]);
      assert Delayed(es[0], h, env, addrs[0], hs[1]) && AllDelayed(es[1..], hs[1], env, addrs[1..], h1);
    }
    if addrs != [] && exists mid :: Delayed(es[0], h, env, addrs[0], mid)
                                    && AllDelayed(es[1..], mid, env, addrs[1..], h1) {
      var mid :| Delayed(es[0], h, env, addrs[0], mid) && AllDelayed(es[1..], mid, env, addrs[1..], h1);
      var hs: seq<Heap> :| DelayedThrough(es[1..], env, addrs[1..], hs) && hs[0] == mid && hs[|es[1..]|] == h1;
      forall i | 0 <= i < |es|
        ensures Delayed(es[i], ([h] + hs)[i], env, addrs[i], ([h] + hs)[i + 1])
      {
        if i > 0 {
          assert Delayed(es[1..][i - 1], hs[i - 1], env, addrs[1..][i - 1], hs[i]);
        }
      }
      assert DelayedThrough(es, env, addrs, [h] + hs);
    }
  }

  lemma {:induction false} AllDelayedExactly(es: seq<Expr>, h: Heap, env: EnvAddr, addrs: seq<Addr>, h1: Heap)
    ensures AllDelayed(es, h, env, addrs, h1) <==> (addrs, h1) == MaybeThunkAll(ByName, es, h, env)
    decreases |es|
  {
    hide AllDelayed, Delayed, MaybeThunk;
    if es == [] {
      Nothing(h, env, addrs, h1);
    } else {
      AllDelayedFirst(es, h, env, addrs, h1);
      var (a, mid) := MaybeThunk(ByName, es[0], h, env);
      forall a': nat, m
        ensures Delayed(es[0], h, env, a', m) <==> (a', m) == (a, mid)
      {
        DelayedExactly(es[0], h, env, a', m);
      }
      if addrs != [] {
        assert addrs == [addrs[0]] + addrs[1..];
        AllDelayedExactly(es[1..], mid, env, addrs[1..], h1);
      }
    }
  }

  lemma {:induction false} SourcesExactly(from: seq<Expr>, h: Heap, up: EnvAddr, source: EnvAddr, h1: Heap)
    ensures SourcesDelayed(from, h, up, source, h1) <==> (source, h1) == SourceFrame(ByName, from, h, up)
  {
    hide AllDelayed, MaybeThunkAll;
    var (addrs, h0) := MaybeThunkAll(ByName, from, h, up);
    forall as1, x
      ensures AllDelayed(from, h, up, as1, x) <==> (as1, x) == (addrs, h0)
    {
      AllDelayedExactly(from, h, up, as1, x);
    }
    FullIsFilled(addrs);
    if from != [] {
      assert SourceFrame(ByName, from, h, up) ==
        (|h0.envs|, WithFrame(h0, Env([], false, AllFilled(addrs), Some(up))));
    }
  }

  /* Definitions */

  lemma {:induction false} DefExactly(
      d: AttrDef, alone: bool, h: Heap, plain: EnvAddr, inherited: EnvAddr, source: EnvAddr, a: Addr, h1: Heap)
    ensures DefDelayed(d, alone, h, plain, inherited, source, a, h1) <==>
            (a, h1) == DefThunk(ByName, d, alone, h, plain, inherited, source)
  {
    hide Delayed, MaybeThunk;
    DelayedExactly(d.e, h, ChooseEnv(d.kind, plain, inherited, source), a, h1);
  }

  /** The definitions from `i` on. */
  ghost predicate DefsFrom(
      defs: seq<AttrDef>, i: nat, alone: bool, fill: bool, h: Heap, plain: EnvAddr, inherited: EnvAddr,
      source: EnvAddr, addrs: seq<Addr>, h1: Heap)
    requires i <= |defs|
  {
    exists hs: seq<Heap> ::
      DefsFromThrough(defs, i, alone, fill, plain, inherited, source, addrs, hs) && hs[0] == h
      && hs[|defs| - i] == h1
  }

  ghost predicate DefsFromThrough(
      defs: seq<AttrDef>, i: nat, alone: bool, fill: bool, plain: EnvAddr, inherited: EnvAddr,
      source: EnvAddr, addrs: seq<Addr>, hs: seq<Heap>)
    requires i <= |defs|
  {
    && |addrs| == |defs| - i && |hs| == |defs| - i + 1
    && forall j :: 0 <= j < |defs| - i ==>
         DefStep(defs[i + j], i + j, alone, fill, hs[j], plain, inherited, source, addrs[j], hs[j + 1])
  }

  lemma {:induction false} DefsFromZero(
      defs: seq<AttrDef>, alone: bool, fill: bool, h: Heap, plain: EnvAddr, inherited: EnvAddr, source: EnvAddr,
      addrs: seq<Addr>, h1: Heap)
    ensures DefsFrom(defs, 0, alone, fill, h, plain, inherited, source, addrs, h1) <==>
            DefsDelayed(defs, alone, fill, h, plain, inherited, source, addrs, h1)
  {
    hide DefStep;
    forall hs: seq<Heap>
      ensures DefsFromThrough(defs, 0, alone, fill, plain, inherited, source, addrs, hs) <==>
              DefsThrough(defs, alone, fill, plain, inherited, source, addrs, hs)
    {
      assert forall j {:trigger hs[j]} :: 0 + j == j;
    }
  }

  lemma {:induction false} NoDefsFrom(
      defs: seq<AttrDef>, alone: bool, fill: bool, h: Heap, plain: EnvAddr, inherited: EnvAddr, source: EnvAddr,
      addrs: seq<Addr>, h1: Heap)
    ensures DefsFrom(defs, |defs|, alone, fill, h, plain, inherited, source, addrs, h1) <==> (addrs, h1) == ([], h)
  {
    assert DefsFromThrough(defs, |defs|, alone, fill, plain, inherited, source, [], [h]);
  }

  lemma {:induction false} DefsFromPart(
      defs: seq<AttrDef>, i: nat, alone: bool, fill: bool, h: Heap, plain: EnvAddr, inherited: EnvAddr,
      source: EnvAddr, addrs: seq<Addr>, h1: Heap)
    requires i < |defs|
    requires DefsFrom(defs, i, alone, fill, h, plain, inherited, source, addrs, h1)
    ensures addrs != []
            && exists mid ::
                 && DefStep(defs[i], i, alone, fill, h, plain, inherited, source, addrs[0], mid)
                 && DefsFrom(defs, i + 1, alone, fill, mid, plain, inherited, source, addrs[1..], h1)
  {
    hide DefStep;
    var hs: seq<Heap> :|
      DefsFromThrough(defs, i, alone, fill, plain, inherited, source, addrs, hs) && hs[0] == h
      && hs[|defs| - i] == h1;
    forall j | 0 <= j < |defs| - (i + 1)
      ensures DefStep(defs[i + 1 + j], i + 1 + j, alone, fill, hs[1..][j], plain, inherited, source,
                      addrs[1..][j], hs[1..][j + 1])
    {
      assert DefStep(defs[i + (j + 1)], i + (j + 1), alone, fill, hs[j + 1], plain, inherited, source,
                     addrs[j + 1], hs[j + 1 + 1]);
    }
    assert DefsFromThrough(defs, i + 1, alone, fill, plain, inherited, source, addrs[1..], hs[1..]);
    assert DefStep(defs[i + 0], i + 0, alone, fill, hs[0], plain, inherited, source, addrs[0], hs[0 + 1]);
  }

  lemma {:induction false} DefsFromJoin(
      defs: seq<AttrDef>, i: nat, alone: bool, fill: bool, h: Heap, plain: EnvAddr, inherited: EnvAddr,
      source: EnvAddr, addrs: seq<Addr>, h1: Heap)
    requires i < |defs|
    requires addrs != []
             && exists mid ::
                  && DefStep(defs[i], i, alone, fill, h, plain, inherited, source, addrs[0], mid)
                  && DefsFrom(defs, i + 1, alone, fill, mid, plain, inherited, source, addrs[1..], h1)
    ensures DefsFrom(defs, i, alone, fill, h, plain, inherited, source, addrs, h1)
  {
    hide DefStep;
    var mid :|
      && DefStep(defs[i], i, alone, fill, h, plain, inherited, source, addrs[0], mid)
      && DefsFrom(defs, i + 1, alone, fill, mid, plain, inherited, source, addrs[1..], h1);
    var hs: seq<Heap> :|
      DefsFromThrough(defs, i + 1, alone, fill, plain, inherited, source, addrs[1..], hs) && hs[0] == mid
      && hs[|defs| - (i + 1)] == h1;
    forall j | 0 <= j < |defs| - i
      ensures DefStep(defs[i + j], i + j, alone, fill, ([h] + hs)[j], plain, inherited, source, addrs[j],
                      ([h] + hs)[j + 1])
    {
      if j > 0 {
        assert DefStep(defs[i + 1 + (j - 1)], i + 1 + (j - 1), alone, fill, hs[j - 1], plain, inherited, source,
                       addrs[1..][j - 1], hs[j - 1 + 1]);
      }
    }
    assert DefsFromThrough(defs, i, alone, fill, plain, inherited, source, addrs, [h] + hs);
  }

  lemma {:induction false} DefsFromFirst(
      defs: seq<AttrDef>, i: nat, alone: bool, fill: bool, h: Heap, plain: EnvAddr, inherited: EnvAddr,
      source: EnvAddr, addrs: seq<Addr>, h1: Heap)
    requires i < |defs|
    ensures DefsFrom(defs, i, alone, fill, h, plain, inherited, source, addrs, h1) <==>
            addrs != []
            && exists mid ::
                 && DefStep(defs[i], i, alone, fill, h, plain, inherited, source, addrs[0], mid)
                 && DefsFrom(defs, i + 1, alone, fill, mid, plain, inherited, source, addrs[1..], h1)
  {
    hide DefStep, DefsFrom;
    if DefsFrom(defs, i, alone, fill, h, plain, inherited, source, addrs, h1) {
      DefsFromPart(defs, i, alone, fill, h, plain, inherited, source, addrs, h1);
    }
    if addrs != []
       && exists mid ::
            && DefStep(defs[i], i, alone, fill, h, plain, inherited, source, addrs[0], mid)
            && DefsFrom(defs, i + 1, alone, fill, mid, plain, inherited, source, addrs[1..], h1) {
      DefsFromJoin(defs, i, alone, fill, h, plain, inherited, source, addrs, h1);
    }
  }

  lemma {:induction false} DefStepExactly(
      d: AttrDef, i: nat, alone: bool, fill: bool, h: Heap, plain: EnvAddr, inherited: EnvAddr, source: EnvAddr,
      a: Addr, h1: Heap)
    ensures DefStep(d, i, alone, fill, h, plain, inherited, source, a, h1) <==>
            var r := DefThunk(ByName, d, alone, h, plain, inherited, source);
            a == r.0 && h1 == if fill then SetSlot(r.1, plain, i, a) else r.1
  {
    hide DefDelayed, DefThunk, Filled, SetSlot;
    var r := DefThunk(ByName, d, alone, h, plain, inherited, source);
    forall mid
      ensures DefDelayed(d, alone, h, plain, inherited, source, a, mid) <==> (a, mid) == r
    {
      DefExactly(d, alone, h, plain, inherited, source, a, mid);
    }
    FilledIsSet(r.1, plain, i, a);
  }

  lemma FirstAndRest(addrs: seq<Addr>, a: Addr, rest: seq<Addr>)
    requires addrs != []
    ensures addrs == [a] + rest <==> addrs[0] == a && addrs[1..] == rest
  {
    assert ([a] + rest)[1..] == rest;
    assert addrs == [addrs[0]] + addrs[1..];
  }

  lemma {:induction false} FillExactly(
      defs: seq<AttrDef>, i: nat, alone: bool, h: Heap, frame: EnvAddr, outer: EnvAddr, source: EnvAddr,
      addrs: seq<Addr>, h1: Heap)
    requires i <= |defs|
    ensures DefsFrom(defs, i, alone, true, h, frame, outer, source, addrs, h1) <==>
            (addrs, h1) == FillDefs(ByName, defs, i, alone, h, frame, outer, source)
    decreases |defs| - i
  {
    hide DefsFrom, DefStep, DefThunk, SetSlot;
    if i == |defs| {
      NoDefsFrom(defs, alone, true, h, frame, outer, source, addrs, h1);
    } else {
      DefsFromFirst(defs, i, alone, true, h, frame, outer, source, addrs, h1);
      var r := DefThunk(ByName, defs[i], alone, h, frame, outer, source);
      var mid := SetSlot(r.1, frame, i, r.0);
      assert |FillDefs(ByName, defs, i, alone, h, frame, outer, source).0| > 0;
      if addrs != [] {
        forall m
          ensures DefStep(defs[i], i, alone, true, h, frame, outer, source, addrs[0], m) <==>
                  addrs[0] == r.0 && m == mid
        {
          DefStepExactly(defs[i], i, alone, true, h, frame, outer, source, addrs[0], m);
        }
        assert addrs == [addrs[0]] + addrs[1..];
        FillExactly(defs, i + 1, alone, mid, frame, outer, source, addrs[1..], h1);
        var rest := FillDefs(ByName, defs, i + 1, alone, mid, frame, outer, source);
        FirstAndRest(addrs, r.0, rest.0);
        assert addrs[0] == r.0 ==> DefStep(defs[i], i, alone, true, h, frame, outer, source, addrs[0], mid);
      }
    }
  }

  lemma {:induction false} PlainExactly(
      defs: seq<AttrDef>, i: nat, h: Heap, env: EnvAddr, source: EnvAddr, addrs: seq<Addr>, h1: Heap)
    requires i <= |defs|
    ensures DefsFrom(defs, i, false, false, h, env, env, source, addrs, h1) <==>
            (addrs, h1) == PlainDefs(ByName, defs[i..], h, env, source)
    decreases |defs| - i
  {
    hide DefsFrom, DefStep, DefThunk;
    if i == |defs| {
      NoDefsFrom(defs, false, false, h, env, env, source, addrs, h1);
    } else {
      DefsFromFirst(defs, i, false, false, h, env, env, source, addrs, h1);
      var r := DefThunk(ByName, defs[i], false, h, env, env, source);
      assert defs[i..][1..] == defs[i + 1..];
      assert |PlainDefs(ByName, defs[i..], h, env, source).0| > 0;
      if addrs != [] {
        forall m
          ensures DefStep(defs[i], i, false, false, h, env, env, source, addrs[0], m) <==>
                  addrs[0] == r.0 && m == r.1
        {
          DefStepExactly(defs[i], i, false, false, h, env, env, source, addrs[0], m);
        }
        assert addrs == [addrs[0]] + addrs[1..];
        PlainExactly(defs, i + 1, r.1, env, source, addrs[1..], h1);
        var rest := PlainDefs(ByName, defs[i + 1..], r.1, env, source);
        FirstAndRest(addrs, r.0, rest.0);
        assert addrs[0] == r.0 ==> DefStep(defs[i], i, false, false, h, env, env, source, addrs[0], r.1);
      }
    }
  }

  /** The frame of a `let` or recursive set is the one the evaluator makes. */
  lemma {:induction false} FrameExactly(
      defs: seq<AttrDef>, from: seq<Expr>, alone: bool, h: Heap, env: EnvAddr, addrs: seq<Addr>, h1: Heap)
    ensures FrameBuilt(defs, from, alone, h, env, addrs, h1) <==>
            (|h.envs|, addrs, h1) == RecFrame(ByName, defs, from, alone, h, env)
  {
    hide SourcesDelayed, DefsDelayed, SourceFrame, FillDefs;
    var frame := |h.envs|;
    var empty := WithFrame(h, Env(DefNamesOf(defs), false, seq(|defs|, i => None), Some(env)));
    assert (frame, empty) == NewEnv(ByName, h, Env(NamesOf(defs), false, EmptySlots(|defs|), Some(env))) by {
      NamesAreNames(defs);
      assert seq(|defs|, i => None) == EmptySlots(|defs|);
    }
    var (source, h0) := SourceFrame(ByName, from, empty, frame);
    forall x: nat, g
      ensures SourcesDelayed(from, empty, frame, x, g) <==> (x, g) == (source, h0)
    {
      SourcesExactly(from, empty, frame, x, g);
    }
    DefsFromZero(defs, alone, true, h0, frame, env, source, addrs, h1);
    FillExactly(defs, 0, alone, h0, frame, env, source, addrs, h1);
  }

  lemma {:induction false} PlainDefsExactly(
      defs: seq<AttrDef>, h: Heap, env: EnvAddr, source: EnvAddr, addrs: seq<Addr>, h1: Heap)
    ensures DefsDelayed(defs, false, false, h, env, env, source, addrs, h1) <==>
            (addrs, h1) == PlainDefs(ByName, defs, h, env, source)
  {
    hide DefsDelayed, PlainDefs;
    DefsFromZero(defs, false, false, h, env, env, source, addrs, h1);
    PlainExactly(defs, 0, h, env, source, addrs, h1);
    assert defs[0..] == defs;
  }

  /* Attributes */

  lemma {:induction false} ZipNames(defs: seq<AttrDef>, addrs: seq<Addr>, x: Symbol)
    requires |defs| == |addrs|
    ensures x in Zip(defs, addrs) <==> x in DefNamesOf(defs)
    decreases |defs|
  {
    var names := DefNamesOf(defs);
    if defs != [] {
      ZipNames(defs[1..], addrs[1..], x);
      assert DefNamesOf(defs[1..]) == names[1..];
      assert names == [defs[0].name] + names[1..];
    }
  }

  lemma {:induction false} ZipAt(defs: seq<AttrDef>, addrs: seq<Addr>, i: nat)
    requires |defs| == |addrs| && i < |defs| && FirstAt(DefNamesOf(defs), defs[i].name, i)
    ensures defs[i].name in Zip(defs, addrs) && Zip(defs, addrs)[defs[i].name] == addrs[i]
    decreases |defs|
  {
    var names := DefNamesOf(defs);
    if i > 0 {
      var rest := DefNamesOf(defs[1..]);
      assert rest == names[1..];
      assert names[0] != names[i];
      forall j | 0 <= j < i - 1
        ensures rest[j] != defs[i].name
      {
        assert names[j + 1] != defs[i].name;
      }
      ZipAt(defs[1..], addrs[1..], i - 1);
    }
  }

  lemma {:induction false} ZipExactly(defs: seq<AttrDef>, addrs: seq<Addr>, m: map<Symbol, Addr>)
    requires |defs| == |addrs|
    ensures Bindings(defs, addrs, m) <==> m == Zip(defs, addrs)
  {
    hide Zip;
    var z := Zip(defs, addrs);
    var names := DefNamesOf(defs);
    forall x
      ensures x in z <==> x in names
    {
      ZipNames(defs, addrs, x);
    }
    forall i | 0 <= i < |defs| && FirstAt(names, defs[i].name, i)
      ensures defs[i].name in z && z[defs[i].name] == addrs[i]
    {
      ZipAt(defs, addrs, i);
    }
    if Bindings(defs, addrs, m) {
      forall x | x in z
        ensures m[x] == z[x]
      {
        var i := IndexOf(names, x).value;
        FirstIsIndex(names, x, i);
        assert FirstAt(names, defs[i].name, i);
      }
      assert m == z;
    }
  }

  /** The definition of a name is the cell of the first one. */
  lemma {:induction false} DefOfName(defs: seq<AttrDef>, addrs: seq<Addr>, x: Symbol)
    requires |defs| == |addrs| && DefIndex(defs, x).Some?
    ensures DefIndex(defs, x).value < |addrs|
    ensures x in Zip(defs, addrs) && Zip(defs, addrs)[x] == addrs[DefIndex(defs, x).value]
  {
    var i := DefIndex(defs, x).value;
    NamesAreNames(defs);
    FirstIsIndex(DefNamesOf(defs), x, i);
    ZipAt(defs, addrs, i);
  }

  lemma {:induction false} DefIndexExactly(defs: seq<AttrDef>, x: Symbol)
    ensures DefIndex(defs, x).Some? <==> x in DefNamesOf(defs)
  {
    NamesAreNames(defs);
  }

  /** The slots from definition `i` on are replaced where a name is overridden. */
  ghost predicate OverriddenFrom(
      defs: seq<AttrDef>, i: nat, over: map<Symbol, Addr>, frame: EnvAddr, h: Heap, h1: Heap)
  {
    && h1.cells == h.cells && |h1.envs| == |h.envs|
    && (forall f :: 0 <= f < |h.envs| && f != frame ==> h1.envs[f] == h.envs[f])
    && (frame < |h.envs| ==>
          var before, after := h.envs[frame], h1.envs[frame];
          && after == before.(slots := after.slots) && |after.slots| == |before.slots|
          && forall j :: 0 <= j < |before.slots| ==>
               after.slots[j] ==
                 if i <= j < |defs| && defs[j].name in over then Some(over[defs[j].name]) else before.slots[j])
  }

  lemma {:induction false} OverrideFrom(
      defs: seq<AttrDef>, i: nat, over: map<Symbol, Addr>, h: Heap, frame: EnvAddr)
    requires i <= |defs|
    ensures OverriddenFrom(defs, i, over, frame, h, Override(defs, i, over, h, frame))
    decreases |defs| - i
  {
    if i < |defs| {
      var h1 := if defs[i].name in over then SetSlot(h, frame, i, over[defs[i].name]) else h;
      OverrideFrom(defs, i + 1, over, h1, frame);
    }
  }

  lemma {:induction false} OverrideExactly(
      defs: seq<AttrDef>, over: map<Symbol, Addr>, frame: EnvAddr, h: Heap, h1: Heap)
    ensures Overridden(defs, over, frame, h, h1) <==> h1 == Override(defs, 0, over, h, frame)
  {
    hide Override;
    var r := Override(defs, 0, over, h, frame);
    OverrideFrom(defs, 0, over, h, frame);
    if Overridden(defs, over, frame, h, h1) {
      forall f | 0 <= f < |h.envs|
        ensures h1.envs[f] == r.envs[f]
      {
        if f == frame {
          assert h1.envs[f].slots == r.envs[f].slots;
        }
      }
      assert h1.envs == r.envs;
    }
  }

  /* Formals */

  lemma {:induction false} FormalStepExactly(
      f: Formal, slot: nat, actual: map<Symbol, Addr>, h: Heap, frame: EnvAddr, h1: Heap)
    requires f.name in actual || f.def.Some?
    ensures FormalStep(f, slot, actual, h, frame, h1) <==> h1 == FormalHeap(f, slot, actual, h, frame)
  {
    hide Delayed, MaybeThunk, Filled, SetSlot;
    if f.name in actual {
      FilledIsSet(h, frame, slot, actual[f.name]);
    } else {
      var r := MaybeThunk(ByName, f.def.value, h, frame);
      forall a: nat, mid
        ensures Delayed(f.def.value, h, frame, a, mid) <==> (a, mid) == r
      {
        DelayedExactly(f.def.value, h, frame, a, mid);
      }
      FilledIsSet(r.1, frame, slot, r.0);
    }
  }

  function FormalHeap(f: Formal, slot: nat, actual: map<Symbol, Addr>, h: Heap, frame: EnvAddr): Heap
    requires f.name in actual || f.def.Some?
  {
    if f.name in actual then SetSlot(h, frame, slot, actual[f.name])
    else
      var (a, h1) := MaybeThunk(ByName, f.def.value, h, frame);
      SetSlot(h1, frame, slot, a)
  }

  ghost predicate FormalsFrom(
      fs: seq<Formal>, i: nat, base: nat, actual: map<Symbol, Addr>, h: Heap, frame: EnvAddr, h1: Heap)
    requires i <= |fs|
  {
    exists hs: seq<Heap> :: FormalsFromThrough(fs, i, base, actual, frame, hs) && hs[0] == h && hs[|fs| - i] == h1
  }

  ghost predicate FormalsFromThrough(
      fs: seq<Formal>, i: nat, base: nat, actual: map<Symbol, Addr>, frame: EnvAddr, hs: seq<Heap>)
    requires i <= |fs|
  {
    && |hs| == |fs| - i + 1
    && forall j :: 0 <= j < |fs| - i ==> FormalStep(fs[i + j], base + (i + j), actual, hs[j], frame, hs[j + 1])
  }

  lemma {:induction false} FormalsFromZero(
      fs: seq<Formal>, base: nat, actual: map<Symbol, Addr>, h: Heap, frame: EnvAddr, h1: Heap)
    ensures FormalsFrom(fs, 0, base, actual, h, frame, h1) <==> FormalsFilled(fs, base, actual, h, frame, h1)
  {
    hide FormalStep;
    forall hs: seq<Heap>
      ensures FormalsFromThrough(fs, 0, base, actual, frame, hs) <==> FormalsThrough(fs, base, actual, frame, hs)
    {
      assert forall j {:trigger hs[j]} :: 0 + j == j;
    }
  }

  /** Formal `i`, whose slot is `i` after the first. */
  ghost predicate FormalAt(
      fs: seq<Formal>, i: nat, base: nat, actual: map<Symbol, Addr>, h: Heap, frame: EnvAddr, h1: Heap)
    requires i < |fs|
  {
    FormalStep(fs[i], base + i, actual, h, frame, h1)
  }

  lemma {:induction false} FormalsFromFirst(
      fs: seq<Formal>, i: nat, base: nat, actual: map<Symbol, Addr>, h: Heap, frame: EnvAddr, h1: Heap)
    requires i < |fs|
    ensures FormalsFrom(fs, i, base, actual, h, frame, h1) <==>
            exists mid ::
              && FormalAt(fs, i, base, actual, h, frame, mid)
              && FormalsFrom(fs, i + 1, base, actual, mid, frame, h1)
  {
    hide FormalStep;
    if FormalsFrom(fs, i, base, actual, h, frame, h1) {
      var hs: seq<Heap> :|
        FormalsFromThrough(fs, i, base, actual, frame, hs) && hs[0] == h && hs[|fs| - i] == h1;
      forall j | 0 <= j < |fs| - (i + 1)
        ensures FormalStep(fs[i + 1 + j], base + (i + 1 + j), actual, hs[1..][j], frame, hs[1..][j + 1])
      {
        assert FormalStep(fs[i + (j + 1)], base + (i + (j + 1)), actual, hs[j + 1], frame, hs[j + 1 + 1]);
      }
      assert FormalsFromThrough(fs, i + 1, base, actual, frame, hs[1..]);
      assert FormalStep(fs[i + 0], base + (i + 0), actual, hs[0], frame, hs[0 + 1]);
      assert FormalAt(fs, i, base, actual, h, frame, hs[1]) && FormalsFrom(fs, i + 1, base, actual, hs[1], frame, h1);
    }
    if exists mid ::
         && FormalAt(fs, i, base, actual, h, frame, mid)
         && FormalsFrom(fs, i + 1, base, actual, mid, frame, h1) {
      var mid :|
        && FormalAt(fs, i, base, actual, h, frame, mid)
        && FormalsFrom(fs, i + 1, base, actual, mid, frame, h1);
      var hs: seq<Heap> :|
        FormalsFromThrough(fs, i + 1, base, actual, frame, hs) && hs[0] == mid && hs[|fs| - (i + 1)] == h1;
      forall j | 0 <= j < |fs| - i
        ensures FormalStep(fs[i + j], base + (i + j), actual, ([h] + hs)[j], frame, ([h] + hs)[j + 1])
      {
        if j > 0 {
          assert FormalStep(fs[i + 1 + (j - 1)], base + (i + 1 + (j - 1)), actual, hs[j - 1], frame, hs[j - 1 + 1]);
        }
      }
      assert FormalsFromThrough(fs, i, base, actual, frame, [h] + hs);
    }
  }

  /** The slots of the formals when none is missing. */
  lemma {:induction false} FormalsExactly(
      fs: seq<Formal>, i: nat, base: nat, actual: map<Symbol, Addr>, h: Heap, frame: EnvAddr, h1: Heap)
    requires i <= |fs| && NoneMissing(fs, actual)
    ensures var o := FillFormals(ByName, fs, i, base, actual, h, frame);
      o.r.Ok? && (FormalsFrom(fs, i, base, actual, h, frame, h1) <==> h1 == o.h)
    decreases |fs| - i
  {
    hide FormalStep, SetSlot, MaybeThunk;
    if i == |fs| {
      assert FormalsFromThrough(fs, i, base, actual, frame, [h]);
    } else {
      FormalsFromFirst(fs, i, base, actual, h, frame, h1);
      var mid := FormalHeap(fs[i], base + i, actual, h, frame);
      forall m
        ensures FormalAt(fs, i, base, actual, h, frame, m) <==> m == mid
      {
        FormalStepExactly(fs[i], base + i, actual, h, frame, m);
      }
      assert FormalAt(fs, i, base, actual, h, frame, mid);
      FormalsExactly(fs, i + 1, base, actual, mid, frame, h1);
    }
  }

  /** The error is that of the first formal that is missing. */
  lemma {:induction false} MissingExactly(
      fs: seq<Formal>, i: nat, k: nat, base: nat, actual: map<Symbol, Addr>, h: Heap, frame: EnvAddr)
    requires i <= k && MissingAt(fs, actual, k)
    ensures FillFormals(ByName, fs, i, base, actual, h, frame).r == Err(MissingArgument(fs[k].name))
    decreases k - i
  {
    if i < k {
      MissingExactly(fs, i + 1, k, base, actual, FormalHeap(fs[i], base + i, actual, h, frame), frame);
    }
  }

  lemma {:induction false} FirstMissing(fs: seq<Formal>, actual: map<Symbol, Addr>, i: nat) returns (k: nat)
    requires i <= |fs| && !NoneMissing(fs, actual)
    requires forall j :: 0 <= j < i ==> fs[j].name in actual || fs[j].def.Some?
    ensures MissingAt(fs, actual, k)
    decreases |fs| - i
  {
    if fs[i].name !in actual && fs[i].def.None? {
      k := i;
    } else {
      k := FirstMissing(fs, actual, i + 1);
    }
  }

  function Used(fs: seq<Formal>, i: nat, actual: map<Symbol, Addr>): set<int> {
    set j | i <= j < |fs| && fs[j].name in actual
  }

  lemma {:induction false} UsedCount(fs: seq<Formal>, i: nat, actual: map<Symbol, Addr>)
    requires i <= |fs|
    ensures |Used(fs, i, actual)| == UsedArgs(fs[i..], actual)
    decreases |fs| - i
  {
    if i < |fs| {
      UsedCount(fs, i + 1, actual);
      var rest := Used(fs, i + 1, actual);
      assert i !in rest;
      assert Used(fs, i, actual) == if fs[i].name in actual then rest + {i} else rest;
      assert fs[i..][1..] == fs[i + 1..];
    } else {
      assert Used(fs, i, actual) == {};
    }
  }

  lemma {:induction false} TooManyExactly(formals: Formals, actual: map<Symbol, Addr>)
    ensures TooMany(formals, actual) <==> !formals.ellipsis && UsedArgs(formals.formals, actual) != |actual|
  {
    var fs := formals.formals;
    UsedCount(fs, 0, actual);
    assert fs[0..] == fs;
    assert Used(fs, 0, actual) == set j | 0 <= j < |fs| && fs[j].name in actual;
  }

  ghost predicate DistinctFormals(fs: seq<Formal>) {
    forall i, j :: 0 <= i < j < |fs| ==> fs[i].name != fs[j].name
  }

  ghost function UsedNames(fs: seq<Formal>, i: nat, actual: map<Symbol, Addr>): set<Symbol> {
    set j | i <= j < |fs| && fs[j].name in actual :: fs[j].name
  }

  lemma {:induction false} NamesCount(fs: seq<Formal>, i: nat, actual: map<Symbol, Addr>)
    requires i <= |fs| && DistinctFormals(fs)
    ensures |UsedNames(fs, i, actual)| == UsedArgs(fs[i..], actual)
    decreases |fs| - i
  {
    if i < |fs| {
      NamesCount(fs, i + 1, actual);
      var rest := UsedNames(fs, i + 1, actual);
      assert fs[i].name !in rest;
      assert UsedNames(fs, i, actual) == if fs[i].name in actual then rest + {fs[i].name} else rest;
      assert fs[i..][1..] == fs[i + 1..];
    } else {
      assert UsedNames(fs, i, actual) == {};
    }
  }

  lemma {:induction false} SubsetSize<T>(a: set<T>, b: set<T>)
    requires a <= b
    ensures |a| <= |b| && (|a| == |b| <==> a == b)
  {
    assert b == a + (b - a);
  }

  /** The count is there to find an attribute that no formal names. */
  lemma {:induction false} TooManyMeans(formals: Formals, actual: map<Symbol, Addr>)
    requires DistinctFormals(formals.formals)
    ensures TooMany(formals, actual) <==>
            !formals.ellipsis && exists x :: x in actual && forall f :: f in formals.formals ==> f.name != x
  {
    var fs := formals.formals;
    TooManyExactly(formals, actual);
    NamesCount(fs, 0, actual);
    assert fs[0..] == fs;
    var used := UsedNames(fs, 0, actual);
    SubsetSize(used, actual.Keys);
    if used != actual.Keys {
      var x :| x in actual.Keys && x !in used;
      assert forall f :: f in fs ==> f.name != x;
    }
    if exists x :: x in actual && forall f :: f in fs ==> f.name != x {
      var x :| x in actual && forall f :: f in fs ==> f.name != x;
      assert x !in used;
    }
  }
}
