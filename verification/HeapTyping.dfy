/** Every run-time frame has a static environment it matches in depth, kind and slot
    order. A `FrameTy` list assigns one to each frame of the heap, in the manner of a
    store typing. */
module HeapTyping {
  import opened Common
  import opened StaticVars
  import opened Syntax
  import opened Binder
  import opened Annotation
  import opened Runtime

  /** The static environment of a frame, and how many of its slots an `inherit (from)`
      definition may name. */
  datatype FrameTy = FrameTy(env: StaticEnv, slots: nat)

  type Typing = seq<FrameTy>

  /** Every `with` frame of a static environment belongs to a node with the right fields. */
  ghost predicate WithsFit(env: StaticEnv, notes: Notes) {
    env.NoEnv? ||
    (&& (env.isWith.Some? ==> env.isWith.value in notes.withs && notes.withs[env.isWith.value] == WithInfoFor(env.up))
     && WithsFit(env.up, notes))
  }

  /** The frame and its static environment agree on where every name lives. */
  ghost predicate SlotsFit(ty: FrameTy, f: Env) {
    && ty.env.StaticEnv?
    && |f.names| <= |f.slots|
    && ty.slots <= |f.slots|
    && (f.isWith ==> |f.slots| == 1)
    && (forall name :: FindName(ty.env.vars, name) == IndexOf(f.names, name))
  }

  ghost predicate FrameFits(S: Typing, h: Heap, a: EnvAddr, hole: Option<EnvAddr>)
    requires |S| == |h.envs| && a < |S|
  {
    var f, ty := h.envs[a], S[a];
    && ty.env.StaticEnv?
    && (f.isWith <==> ty.env.isWith.Some?)
    && SlotsFit(ty, f)
    && (if f.up.Some? then f.up.value < a && S[f.up.value].env == ty.env.up else ty.env.up.NoEnv?)
    && (forall i :: 0 <= i < |f.slots| && f.slots[i].Some? ==> f.slots[i].value < |h.cells|)
    && (hole != Some(a) ==> forall i :: 0 <= i < |f.slots| ==> f.slots[i].Some?)
  }

  ghost predicate ValueFits(S: Typing, notes: Notes, cells: nat, v: Value) {
    match v
    case VAttrs(attrs) => AttrsFit(cells, attrs)
    case VList(elems) => forall i :: 0 <= i < |elems| ==> elems[i] < cells
    case VLambda(arg, formals, body, env) =>
      env < |S| && Fits(Lambda(arg, formals, body), S[env].env, S[env].slots, notes)
    case _ => true
  }

  ghost predicate AttrsFit(cells: nat, attrs: map<Symbol, Addr>) {
    forall x :: x in attrs ==> attrs[x] < cells
  }

  ghost predicate ThunkFits(S: Typing, notes: Notes, e: Expr, env: EnvAddr) {
    env < |S| && Fits(e, S[env].env, S[env].slots, notes)
  }

  ghost predicate CellFits(S: Typing, notes: Notes, cells: nat, c: Cell) {
    match c
    case Thunk(e, env) => ThunkFits(S, notes, e, env)
    case Blackhole => true
    case Failed(e) => e != Crash
    case Done(v) => ValueFits(S, notes, cells, v)
  }

  /** The heap matches the typing. A frame under construction (`hole`) may still have
      empty slots. */
  ghost predicate HeapFits(S: Typing, notes: Notes, h: Heap, hole: Option<EnvAddr>) {
    && |S| == |h.envs|
    && (forall a :: 0 <= a < |S| ==> FrameFits(S, h, a, hole))
    && (forall a :: 0 <= a < |S| ==> WithsFit(S[a].env, notes))
    && (forall c :: 0 <= c < |h.cells| ==> CellFits(S, notes, |h.cells|, h.cells[c]))
  }

  /** The heap without the names. */
  function Erase(h: Heap): Heap {
    Heap(h.cells, seq(|h.envs|, i requires 0 <= i < |h.envs| => EraseEnv(h.envs[i])))
  }

  /* Allocation and update keep the invariant and commute with erasure */

  lemma {:induction false} CellGrows(S: Typing, S': Typing, notes: Notes, n: nat, n': nat, c: Cell)
    requires CellFits(S, notes, n, c) && S <= S' && n <= n'
    ensures CellFits(S', notes, n', c)
  {
    hide Fits;
  }

  lemma {:induction false} NewCellFits(S: Typing, notes: Notes, h: Heap, hole: Option<EnvAddr>, c: Cell)
    requires HeapFits(S, notes, h, hole) && CellFits(S, notes, |h.cells|, c)
    ensures HeapFits(S, notes, NewCell(h, c).1, hole)
    ensures Erase(NewCell(h, c).1) == NewCell(Erase(h), c).1
    ensures |NewCell(h, c).1.cells| == |h.cells| + 1
  {
    var h' := NewCell(h, c).1;
    forall a | 0 <= a < |S|
      ensures FrameFits(S, h', a, hole)
    {
      assert FrameFits(S, h, a, hole);
    }
    forall i | 0 <= i < |h'.cells|
      ensures CellFits(S, notes, |h'.cells|, h'.cells[i])
    {
      CellGrows(S, S, notes, |h.cells|, |h'.cells|, h'.cells[i]);
    }
  }

  lemma {:induction false} SetCellFits(S: Typing, notes: Notes, h: Heap, hole: Option<EnvAddr>, a: Addr, c: Cell)
    requires HeapFits(S, notes, h, hole) && CellFits(S, notes, |h.cells|, c)
    ensures HeapFits(S, notes, SetCell(h, a, c), hole)
    ensures Erase(SetCell(h, a, c)) == SetCell(Erase(h), a, c)
    ensures |SetCell(h, a, c).cells| == |h.cells|
  {
    var h' := SetCell(h, a, c);
    forall e | 0 <= e < |S|
      ensures FrameFits(S, h', e, hole)
    {
      assert FrameFits(S, h, e, hole);
    }
  }

  /** A new frame whose parent is `up`, with the type that extends the parent's. */
  lemma {:induction false} NewEnvFits(S: Typing, notes: Notes, h: Heap, f: Env, ty: FrameTy, full: bool)
    requires HeapFits(S, notes, h, None)
    requires f.up.Some? && f.up.value < |S|
    requires ty.env.StaticEnv? && ty.env.up == S[f.up.value].env
    requires f.isWith <==> ty.env.isWith.Some?
    requires SlotsFit(ty, f)
    requires ty.env.isWith.Some? ==>
      ty.env.isWith.value in notes.withs && notes.withs[ty.env.isWith.value] == WithInfoFor(ty.env.up)
    requires forall i :: 0 <= i < |f.slots| && f.slots[i].Some? ==> f.slots[i].value < |h.cells|
    requires full ==> forall i :: 0 <= i < |f.slots| ==> f.slots[i].Some?
    ensures HeapFits(S + [ty], notes, NewEnv(ByName, h, f).1, if full then None else Some(|S|))
    ensures NewEnv(ByIndex(notes), Erase(h), f) == (|S|, Erase(NewEnv(ByName, h, f).1))
    ensures NewEnv(ByName, h, f).0 == |S|
    ensures S <= S + [ty]
  {
    var S', h' := S + [ty], NewEnv(ByName, h, f).1;
    var hole := if full then None else Some(|S|);
    forall a | 0 <= a < |S'|
      ensures FrameFits(S', h', a, hole) && WithsFit(S'[a].env, notes)
    {
      if a < |S| {
        assert FrameFits(S, h, a, None);
      }
    }
    forall i | 0 <= i < |h'.cells|
      ensures CellFits(S', notes, |h'.cells|, h'.cells[i])
    {
      CellGrows(S, S', notes, |h.cells|, |h.cells|, h.cells[i]);
    }
    assert Erase(h').envs == Erase(h).envs + [EraseEnv(f)];
  }

  lemma {:induction false} SetSlotFits(
      S: Typing, notes: Notes, h: Heap, hole: Option<EnvAddr>, env: EnvAddr, i: nat, a: Addr)
    requires HeapFits(S, notes, h, hole) && a < |h.cells|
    ensures HeapFits(S, notes, SetSlot(h, env, i, a), hole)
    ensures Erase(SetSlot(h, env, i, a)) == SetSlot(Erase(h), env, i, a)
    ensures |SetSlot(h, env, i, a).cells| == |h.cells|
  {
    var h' := SetSlot(h, env, i, a);
    forall e | 0 <= e < |S|
      ensures FrameFits(S, h', e, hole)
    {
      assert FrameFits(S, h, e, hole);
    }
    assert Erase(h').envs == SetSlot(Erase(h), env, i, a).envs;
  }

  /** Once its slots are all filled, a frame is no longer a hole. */
  lemma {:induction false} HoleFilled(S: Typing, notes: Notes, h: Heap, env: EnvAddr)
    requires HeapFits(S, notes, h, Some(env)) && env < |S|
    requires forall i :: 0 <= i < |h.envs[env].slots| ==> h.envs[env].slots[i].Some?
    ensures HeapFits(S, notes, h, None)
  {
    forall a | 0 <= a < |S|
      ensures FrameFits(S, h, a, None)
    {
      assert FrameFits(S, h, a, Some(env));
    }
  }

  /* Static frames and run-time frames line up */

  lemma {:induction false} WalkErased(h: Heap, env: EnvAddr, level: nat)
    ensures WalkUp(Erase(h), env, level) == WalkUp(h, env, level)
    decreases level
  {
    if env < |h.envs| && level > 0 && h.envs[env].up.Some? {
      WalkErased(h, h.envs[env].up.value, level - 1);
    }
  }

  /** A name that the static environment places at a level and displacement is found by
      name in exactly that slot; one it does not bind is bound by no frame. */
  lemma {:induction false} LexicalSlot(
      S: Typing, notes: Notes, h: Heap, hole: Option<EnvAddr>, env: EnvAddr, name: Symbol)
    requires HeapFits(S, notes, h, hole) && env < |S|
    ensures match Lexical(name, S[env].env)
      case None => NameSlot(h, env, name) == NotLexical
      case Some(at) =>
        && WalkUp(h, env, at.level).Some?
        && var target := WalkUp(h, env, at.level).value;
        && target < |h.envs| && at.displ < |h.envs[target].names|
        && h.envs[target].names[at.displ] == name
        && NameSlot(h, env, name) == ReadSlot(h, target, at.displ)
    decreases env
  {
    var f := h.envs[env];
    assert FrameFits(S, h, env, hole);
    assert FindName(S[env].env.vars, name) == IndexOf(f.names, name);
    if (f.isWith || IndexOf(f.names, name).None?) && f.up.Some? {
      LexicalSlot(S, notes, h, hole, f.up.value, name);
    }
  }

  /** The nearest `with` frame is as many steps up at run time as it is statically. */
  lemma {:induction false} NearestWithFrame(S: Typing, notes: Notes, h: Heap, hole: Option<EnvAddr>, env: EnvAddr)
    requires HeapFits(S, notes, h, hole) && env < |S|
    ensures match WithLevel(S[env].env)
      case None => NextWith(h, env) == None
      case Some(level) =>
        && WalkUp(h, env, level) == NextWith(h, env)
        && NextWith(h, env).Some?
        && NextWith(h, env).value < |S|
        && h.envs[NextWith(h, env).value].isWith
        && S[NextWith(h, env).value].env.StaticEnv?
        && S[NextWith(h, env).value].env.isWith == NearestWith(S[env].env)
    decreases env
  {
    var f := h.envs[env];
    assert FrameFits(S, h, env, hole);
    if !f.isWith && f.up.Some? {
      NearestWithFrame(S, notes, h, hole, f.up.value);
    }
  }

  /** Looking a variable up by index hits the slot that looking it up by name finds. */
  lemma {:induction false} FindSlotAgrees(
      S: Typing, notes: Notes, h: Heap, hole: Option<EnvAddr>, id: NodeId, name: Symbol, env: EnvAddr)
    requires HeapFits(S, notes, h, hole) && env < |S|
    requires Fits(Var(id, name), S[env].env, S[env].slots, notes)
    ensures FindSlot(ByIndex(notes), id, name, Erase(h), env) == FindSlot(ByName, id, name, h, env)
    ensures !FindSlot(ByName, id, name, h, env).Bad?
    ensures FindSlot(ByName, id, name, h, env).EmptySlot? ==> hole.Some?
    ensures FindSlot(ByName, id, name, h, env).Slot? ==> FindSlot(ByName, id, name, h, env).a < |h.cells|
    ensures FindSlot(ByName, id, name, h, env).NotLexical? ==>
      && NextWith(h, env).Some? && NextWith(h, env).value < |S|
      && WalkUp(Erase(h), env, notes.vars[id].level) == NextWith(h, env)
      && notes.vars[id].fromWith.Some?
      && S[NextWith(h, env).value].env.StaticEnv?
      && notes.vars[id].fromWith == S[NextWith(h, env).value].env.isWith
  {
    LexicalSlot(S, notes, h, hole, env, name);
    NearestWithFrame(S, notes, h, hole, env);
    WalkErased(h, env, notes.vars[id].level);
    var lex := Lexical(name, S[env].env);
    if lex.Some? {
      var target := WalkUp(h, env, lex.value.level).value;
      assert FrameFits(S, h, target, hole);
    }
  }

  /** A definition whose node holds the index of its own source reads that source, in bounds. */
  lemma {:induction false} SourceSlotAgrees(
      S: Typing, notes: Notes, h: Heap, hole: Option<EnvAddr>, displ: nat, own: nat, env: EnvAddr)
    requires HeapFits(S, notes, h, hole) && ThunkFits(S, notes, InheritFrom(displ, own), env)
    ensures SourceSlot(ByIndex(notes), displ, own, Erase(h), env) == SourceSlot(ByName, displ, own, h, env)
    ensures var slot := SourceSlot(ByName, displ, own, h, env);
      && ((slot.Slot? && slot.a < |h.cells|) || (slot.EmptySlot? && hole == Some(env)))
      && (slot.Slot? ==> h.envs[env].slots[own] == Some(slot.a))
  {
    assert FrameFits(S, h, env, hole);
  }

  /* Names and slots of new frames */

  lemma {:induction false} DefSlots(defs: seq<AttrDef>, base: nat, vars: seq<VarSlot>, name: Symbol)
    requires |vars| == |defs| && forall i :: 0 <= i < |vars| ==> vars[i] == VarSlot(defs[i].name, base + i)
    ensures FindName(vars, name) == match IndexOf(NamesOf(defs), name) case None => None case Some(i) => Some(base + i)
  {
    if defs != [] {
      assert NamesOf(defs)[1..] == NamesOf(defs[1..]);
      DefSlots(defs[1..], base + 1, vars[1..], name);
    }
  }

  lemma {:induction false} RecSlotsFit(defs: seq<AttrDef>, env: StaticEnv, up: EnvAddr)
    ensures SlotsFit(FrameTy(RecEnv(defs, env), 0), Env(NamesOf(defs), false, EmptySlots(|defs|), Some(up)))
  {
    forall name
      ensures FindName(DefVars(defs), name) == IndexOf(NamesOf(defs), name)
    {
      DefSlots(defs, 0, DefVars(defs), name);
    }
  }

  lemma {:induction false} UniqueLookup(vars: seq<VarSlot>, v: VarSlot)
    requires v in vars && forall i, j :: 0 <= i < j < |vars| ==> vars[i].name != vars[j].name
    ensures FindName(vars, v.name) == Some(v.displ)
  {
    if vars[0] != v {
      assert v in vars[1..];
      var k :| 0 <= k < |vars[1..]| && vars[1..][k] == v;
      assert vars[0].name != vars[k + 1].name;
      UniqueLookup(vars[1..], v);
    }
  }

  /** Slot `i` of a lambda frame belongs to the `i`-th name: the argument, then the formals. */
  lemma {:induction false} LambdaSlotNamesInOrder(arg: Option<Symbol>, formals: Option<Formals>)
    ensures var slots, names := LambdaSlots(arg, formals), ArgNames(arg) + FormalNames(FormalsOf(formals));
      |slots| == |names| && forall i :: 0 <= i < |slots| ==> slots[i] == VarSlot(names[i], i)
  {
  }

  lemma {:induction false} LookupInOrder(slots: seq<VarSlot>, names: seq<Symbol>, name: Symbol)
    requires |slots| == |names| && forall i :: 0 <= i < |slots| ==> slots[i] == VarSlot(names[i], i)
    requires forall i, j :: 0 <= i < j < |names| ==> names[i] != names[j]
    ensures FindName(SortVars(slots), name) == IndexOf(names, name)
  {
    var sorted := SortVars(slots);
    SortSorted(slots);
    var at := IndexOf(names, name);
    if at.Some? {
      var v := VarSlot(name, at.value);
      assert slots[at.value] == v;
      InSorted(slots, v);
      UniqueLookup(sorted, v);
    } else {
      forall v | v in sorted
        ensures v.name in names
      {
        InSorted(slots, v);
        var i :| 0 <= i < |slots| && slots[i] == v;
      }
    }
  }

  /** The order in which a lambda's slots are filled is the order of its displacements,
      although the static frame lists them sorted by name. */
  lemma {:induction false} LambdaLookup(arg: Option<Symbol>, formals: Option<Formals>, name: Symbol)
    requires WfFormals(arg, formals)
    ensures FindName(SortVars(LambdaSlots(arg, formals)), name) ==
            IndexOf(ArgNames(arg) + FormalNames(FormalsOf(formals)), name)
  {
    LambdaSlotNamesInOrder(arg, formals);
    LookupInOrder(LambdaSlots(arg, formals), ArgNames(arg) + FormalNames(FormalsOf(formals)), name);
  }

  lemma {:induction false} LambdaSlotsFit(
      arg: Option<Symbol>, formals: Option<Formals>, env: StaticEnv, slots: seq<Option<Addr>>, up: EnvAddr)
    requires WfFormals(arg, formals)
    requires |slots| == |ArgNames(arg)| + |FormalsOf(formals)|
    ensures SlotsFit(FrameTy(LambdaEnv(arg, formals, env), 0),
                     Env(ArgNames(arg) + FormalNames(FormalsOf(formals)), false, slots, Some(up)))
  {
    forall name { LambdaLookup(arg, formals, name); }
  }
}
