/** The indexed evaluator computes exactly what the by-name evaluator computes. */
module Simulation {
  import opened Common
  import opened StaticVars
  import opened Syntax
  import opened Binder
  import opened Annotation
  import opened Runtime
  import opened HeapTyping

  /* What the children of a bound node may rely on */

  lemma {:induction false} FitsMoreSlots(e: Expr, env: StaticEnv, slots: nat, more: nat, notes: Notes)
    requires Fits(e, env, slots, notes) && slots <= more
    ensures Fits(e, env, more, notes)
    decreases e
  {
    TasksSame(e, env, env, slots, more);
    var ts, us := Tasks(e, env, slots), Tasks(e, env, more);
    TasksGrow(e, env, slots, more);
    forall i | 0 <= i < |us|
      ensures Fits(us[i].e, us[i].env, us[i].slots, notes)
    {
      assert ts[i] in ts;
      FitsMoreSlots(ts[i].e, ts[i].env, ts[i].slots, us[i].slots, notes);
    }
  }

  lemma {:induction false} TasksGrow(e: Expr, env: StaticEnv, slots: nat, more: nat)
    requires slots <= more
    ensures |Tasks(e, env, slots)| == |Tasks(e, env, more)|
    ensures forall i :: 0 <= i < |Tasks(e, env, slots)| ==>
      Tasks(e, env, slots)[i].slots <= Tasks(e, env, more)[i].slots
  {
    if e.Lambda? || e.Attrs? || e.Let? {
      SlotsUnused(e, env, slots, more);
    } else {
      PlainTasksGrow(e, env, slots, more);
    }
  }

  /** A node that makes a frame gives its children slots of their own. */
  lemma {:induction false} SlotsUnused(e: Expr, env: StaticEnv, slots: nat, more: nat)
    requires e.Lambda? || e.Attrs? || e.Let?
    ensures Tasks(e, env, slots) == Tasks(e, env, more)
  {
    hide RecEnv, LambdaEnv, SourceEnv, ExprTasks, DefTasks, DynTasks, DefaultTasks;
  }

  lemma {:induction false} PlainTasksGrow(e: Expr, env: StaticEnv, slots: nat, more: nat)
    requires slots <= more && !e.Lambda? && !e.Attrs? && !e.Let?
    ensures |Tasks(e, env, slots)| == |Tasks(e, env, more)|
    ensures forall i :: 0 <= i < |Tasks(e, env, slots)| ==>
      Tasks(e, env, slots)[i].slots <= Tasks(e, env, more)[i].slots
  {
  }

  ghost predicate ExprsFit(es: seq<Expr>, env: StaticEnv, slots: nat, notes: Notes) {
    forall i :: 0 <= i < |es| ==> Fits(es[i], env, slots, notes)
  }

  ghost predicate DefFits(d: AttrDef, plain: StaticEnv, inherited: StaticEnv, sources: nat, notes: Notes) {
    && (d.kind.InheritedFrom? ==> SelectsSource(d))
    && var t := DefTask(d, plain, inherited, SourceEnv(plain), sources);
       Fits(t.e, t.env, t.slots, notes)
  }

  ghost predicate DefsFit(defs: seq<AttrDef>, plain: StaticEnv, inherited: StaticEnv, sources: nat, notes: Notes) {
    forall i :: 0 <= i < |defs| ==> DefFits(defs[i], plain, inherited, sources, notes)
  }

  ghost predicate DynsFit(dyn: seq<DynAttr>, env: StaticEnv, notes: Notes) {
    forall i :: 0 <= i < |dyn| ==> Fits(dyn[i].nameExpr, env, 0, notes) && Fits(dyn[i].valueExpr, env, 0, notes)
  }

  ghost predicate DefaultsFit(fs: seq<Formal>, env: StaticEnv, notes: Notes) {
    forall i :: 0 <= i < |fs| && fs[i].def.Some? ==> Fits(fs[i].def.value, env, 0, notes)
  }

  ghost predicate TasksFit(ts: seq<Task>, notes: Notes) {
    forall i :: 0 <= i < |ts| ==> Fits(ts[i].e, ts[i].env, ts[i].slots, notes)
  }

  lemma {:induction false} TasksFitSplit(ts: seq<Task>, us: seq<Task>, notes: Notes)
    requires TasksFit(ts + us, notes)
    ensures TasksFit(ts, notes) && TasksFit(us, notes)
  {
    assert forall i :: 0 <= i < |ts| ==> ts[i] == (ts + us)[i];
    assert forall i :: 0 <= i < |us| ==> us[i] == (ts + us)[|ts| + i];
  }

  lemma {:induction false} SetParts(from: seq<Expr>, defs: seq<AttrDef>, inner: StaticEnv, env: StaticEnv, notes: Notes)
    requires TasksFit(ExprTasks(from, inner, 0) + DefTasks(defs, inner, env, SourceEnv(inner), |from|), notes)
    requires WfDefs(defs)
    ensures ExprsFit(from, inner, 0, notes)
    ensures DefsFit(defs, inner, env, |from|, notes)
  {
    var a, b := ExprTasks(from, inner, 0), DefTasks(defs, inner, env, SourceEnv(inner), |from|);
    TasksFitSplit(a, b, notes);
    assert forall i :: 0 <= i < |from| ==> a[i].e == from[i];
    forall i | 0 <= i < |defs|
      ensures DefFits(defs[i], inner, env, |from|, notes)
    {
      assert b[i] == DefTask(defs[i], inner, env, SourceEnv(inner), |from|);
    }
  }

  lemma {:induction false} AttrsParts(e: Expr, env: StaticEnv, slots: nat, notes: Notes)
    requires e.Attrs? && Fits(e, env, slots, notes)
    ensures var inner := if e.recursive then RecEnv(e.defs, env) else env;
      && ExprsFit(e.from, inner, 0, notes)
      && DefsFit(e.defs, inner, env, |e.from|, notes)
      && DynsFit(e.dyn, inner, notes)
  {
    var inner := if e.recursive then RecEnv(e.defs, env) else env;
    var ts := ExprTasks(e.from, inner, 0) + DefTasks(e.defs, inner, env, SourceEnv(inner), |e.from|);
    var c := DynTasks(e.dyn, inner);
    assert Tasks(e, env, slots) == ts + c;
    TasksFitSplit(ts, c, notes);
    SetParts(e.from, e.defs, inner, env, notes);
    forall i | 0 <= i < |e.dyn|
      ensures Fits(e.dyn[i].nameExpr, inner, 0, notes) && Fits(e.dyn[i].valueExpr, inner, 0, notes)
    {
      assert c[2 * i] == Task(e.dyn[i].nameExpr, inner, 0) && c[2 * i + 1] == Task(e.dyn[i].valueExpr, inner, 0);
    }
  }

  lemma {:induction false} LetParts(e: Expr, env: StaticEnv, slots: nat, notes: Notes)
    requires e.Let? && Fits(e, env, slots, notes)
    ensures var inner := RecEnv(e.defs, env);
      && ExprsFit(e.from, inner, 0, notes)
      && DefsFit(e.defs, inner, env, |e.from|, notes)
      && Fits(e.body, inner, 0, notes)
  {
    var inner := RecEnv(e.defs, env);
    var ts := ExprTasks(e.from, inner, 0) + DefTasks(e.defs, inner, env, SourceEnv(inner), |e.from|);
    var c := [Task(e.body, inner, 0)];
    assert Tasks(e, env, slots) == ts + c;
    TasksFitSplit(ts, c, notes);
    SetParts(e.from, e.defs, inner, env, notes);
    assert c[0].e == e.body;
  }

  lemma {:induction false} LambdaParts(e: Expr, env: StaticEnv, slots: nat, notes: Notes)
    requires e.Lambda? && Fits(e, env, slots, notes)
    ensures var inner := LambdaEnv(e.arg, e.formals, env);
      DefaultsFit(FormalsOf(e.formals), inner, notes) && Fits(e.body, inner, 0, notes)
  {
    var inner := LambdaEnv(e.arg, e.formals, env);
    var ts, c := DefaultTasks(FormalsOf(e.formals), inner), [Task(e.body, inner, 0)];
    assert Tasks(e, env, slots) == ts + c;
    TasksFitSplit(ts, c, notes);
    assert c[0].e == e.body;
    forall i | 0 <= i < |FormalsOf(e.formals)| && FormalsOf(e.formals)[i].def.Some?
      ensures Fits(FormalsOf(e.formals)[i].def.value, inner, 0, notes)
    {
      var t := Task(FormalsOf(e.formals)[i].def.value, inner, 0);
      assert t in ts;
      var k :| 0 <= k < |ts| && ts[k] == t;
    }
  }

  lemma {:induction false} ListParts(e: Expr, env: StaticEnv, slots: nat, notes: Notes)
    requires e.List? && Fits(e, env, slots, notes)
    ensures ExprsFit(e.elems, env, slots, notes)
  {
    var ts := Tasks(e, env, slots);
    assert forall i :: 0 <= i < |e.elems| ==> ts[i] == Task(e.elems[i], env, slots);
  }

  lemma {:induction false} ChildrenFit(e: Expr, env: StaticEnv, slots: nat, notes: Notes)
    requires Fits(e, env, slots, notes)
    ensures TasksFit(Tasks(e, env, slots), notes)
  {
    hide Tasks;
  }

  lemma {:induction false} CallTasks(e: Expr, env: StaticEnv, slots: nat)
    requires e.Call?
    ensures Tasks(e, env, slots) == [Task(e.fun, env, slots)] + ExprTasks(e.args, env, slots)
  {
  }

  lemma {:induction false} CallParts(e: Expr, env: StaticEnv, slots: nat, notes: Notes)
    requires e.Call? && Fits(e, env, slots, notes)
    ensures Fits(e.fun, env, slots, notes) && ExprsFit(e.args, env, slots, notes)
  {
    var fun, args := [Task(e.fun, env, slots)], ExprTasks(e.args, env, slots);
    ChildrenFit(e, env, slots, notes);
    CallTasks(e, env, slots);
    hide Fits, Tasks;
    TasksFitSplit(fun, args, notes);
    assert fun[0].e == e.fun;
    assert forall i :: 0 <= i < |e.args| ==> args[i].e == e.args[i];
  }

  lemma {:induction false} SelectParts(e: Expr, env: StaticEnv, slots: nat, notes: Notes)
    requires e.Select? && Fits(e, env, slots, notes)
    ensures Fits(e.e, env, slots, notes) && (e.def.Some? ==> Fits(e.def.value, env, slots, notes))
  {
    var ts := Tasks(e, env, slots);
    assert ts[0] == Task(e.e, env, slots);
    if e.def.Some? {
      assert ts[1] == Task(e.def.value, env, slots);
    }
  }

  lemma {:induction false} IfParts(e: Expr, env: StaticEnv, slots: nat, notes: Notes)
    requires e.If? && Fits(e, env, slots, notes)
    ensures Fits(e.cond, env, slots, notes) && Fits(e.thn, env, slots, notes) && Fits(e.els, env, slots, notes)
  {
    var ts := Tasks(e, env, slots);
    assert ts[0] == Task(e.cond, env, slots) && ts[1] == Task(e.thn, env, slots) && ts[2] == Task(e.els, env, slots);
  }

  lemma {:induction false} WithParts(e: Expr, env: StaticEnv, slots: nat, notes: Notes)
    requires e.With? && Fits(e, env, slots, notes)
    ensures Fits(e.attrs, env, slots, notes) && Fits(e.body, StaticEnv(Some(e.id), [], env), 0, notes)
  {
    var ts := Tasks(e, env, slots);
    assert ts[0] == Task(e.attrs, env, slots) && ts[1] == Task(e.body, StaticEnv(Some(e.id), [], env), 0);
  }

  /* Building thunks and frames */

  /** The two modes did the same thing to corresponding heaps. */
  ghost predicate SameOut<T(!new)>(o: Out<T>, o': Out<T>) {
    o'.r == o.r && o'.h == Erase(o.h)
  }

  /** The heap after a step still matches, under a typing that extends the old one. */
  ghost predicate Step(S: Typing, notes: Notes, h: Heap, S': Typing, h': Heap, hole: Option<EnvAddr>) {
    S <= S' && |h.cells| <= |h'.cells| && HeapFits(S', notes, h', hole)
  }

  ghost predicate AddrsFit(h: Heap, addrs: seq<Addr>) {
    forall i :: 0 <= i < |addrs| ==> addrs[i] < |h.cells|
  }

  lemma {:induction false} SimMaybeThunk(S: Typing, notes: Notes, e: Expr, h: Heap, env: EnvAddr, hole: Option<EnvAddr>)
    requires HeapFits(S, notes, h, hole) && ThunkFits(S, notes, e, env)
    ensures var (a, h1) := MaybeThunk(ByName, e, h, env);
      && MaybeThunk(ByIndex(notes), e, Erase(h), env) == (a, Erase(h1))
      && Step(S, notes, h, S, h1, hole)
      && a < |h1.cells|
      && h1.envs == h.envs
  {
    match e
    case Int(n) => NewCellFits(S, notes, h, hole, Done(VInt(n)));
    case Str(s) => NewCellFits(S, notes, h, hole, Done(VStr(s)));
    case Var(id, name) =>
      FindSlotAgrees(S, notes, h, hole, id, name, env);
      NewCellFits(S, notes, h, hole, Thunk(e, env));
    case InheritFrom(displ, own) =>
      SourceSlotAgrees(S, notes, h, hole, displ, own, env);
      NewCellFits(S, notes, h, hole, Thunk(e, env));
    case _ => NewCellFits(S, notes, h, hole, Thunk(e, env));
  }

  lemma {:induction false} SimMaybeThunkAll(
      S: Typing, notes: Notes, es: seq<Expr>, h: Heap, env: EnvAddr, hole: Option<EnvAddr>)
    requires HeapFits(S, notes, h, hole) && env < |S| && ExprsFit(es, S[env].env, S[env].slots, notes)
    ensures var (addrs, h1) := MaybeThunkAll(ByName, es, h, env);
      && MaybeThunkAll(ByIndex(notes), es, Erase(h), env) == (addrs, Erase(h1))
      && Step(S, notes, h, S, h1, hole)
      && AddrsFit(h1, addrs)
      && h1.envs == h.envs
    decreases |es|
  {
    if es != [] {
      var (a, h1) := MaybeThunk(ByName, es[0], h, env);
      SimMaybeThunk(S, notes, es[0], h, env, hole);
      SimMaybeThunkAll(S, notes, es[1..], h1, env, hole);
    }
  }

  /** A definition's thunk, in the frame its kind picks. */
  lemma {:induction false} SimDefThunk(
      S: Typing, notes: Notes, d: AttrDef, noShortcut: bool, h: Heap, plain: EnvAddr, inherited: EnvAddr,
      source: EnvAddr, sources: nat, hole: Option<EnvAddr>)
    requires HeapFits(S, notes, h, hole) && plain < |S| && inherited < |S| && source < |S|
    requires DefFits(d, S[plain].env, S[inherited].env, sources, notes)
    requires sources > 0 ==> S[source].env == SourceEnv(S[plain].env) && S[source].slots == sources
    ensures var (a, h1) := DefThunk(ByName, d, noShortcut, h, plain, inherited, source);
      && DefThunk(ByIndex(notes), d, noShortcut, Erase(h), plain, inherited, source) == (a, Erase(h1))
      && Step(S, notes, h, S, h1, hole)
      && a < |h1.cells|
      && h1.envs == h.envs
  {
    var env := ChooseEnv(d.kind, plain, inherited, source);
    var t := DefTask(d, S[plain].env, S[inherited].env, SourceEnv(S[plain].env), sources);
    if d.kind.InheritedFrom? {
      SelectParts(d.e, t.env, t.slots, notes);
    }
    assert S[env].env == t.env && t.slots <= S[env].slots;
    FitsMoreSlots(d.e, t.env, t.slots, S[env].slots, notes);
    if noShortcut && !d.kind.Inherited? {
      NewCellFits(S, notes, h, hole, Thunk(d.e, env));
    } else {
      SimMaybeThunk(S, notes, d.e, h, env, hole);
    }
  }

  lemma {:induction false} SimPlainDefs(
      S: Typing, notes: Notes, defs: seq<AttrDef>, h: Heap, env: EnvAddr, source: EnvAddr, sources: nat)
    requires HeapFits(S, notes, h, None) && env < |S| && source < |S|
    requires DefsFit(defs, S[env].env, S[env].env, sources, notes)
    requires sources > 0 ==> S[source].env == SourceEnv(S[env].env) && S[source].slots == sources
    ensures var (addrs, h1) := PlainDefs(ByName, defs, h, env, source);
      && PlainDefs(ByIndex(notes), defs, Erase(h), env, source) == (addrs, Erase(h1))
      && Step(S, notes, h, S, h1, None)
      && AddrsFit(h1, addrs)
    decreases |defs|
  {
    if defs != [] {
      var (a, h1) := DefThunk(ByName, defs[0], false, h, env, env, source);
      SimDefThunk(S, notes, defs[0], false, h, env, env, source, sources, None);
      SimPlainDefs(S, notes, defs[1..], h1, env, source, sources);
    }
  }

  /** Slots below `i` are filled. */
  ghost predicate FilledUpTo(h: Heap, frame: EnvAddr, i: nat, n: nat)
  {
    frame < |h.envs| && |h.envs[frame].slots| == n && i <= n &&
    forall k :: 0 <= k < i ==> h.envs[frame].slots[k].Some?
  }

  lemma {:induction false} SimFillDefs(
      S: Typing, notes: Notes, defs: seq<AttrDef>, i: nat, noShortcut: bool, h: Heap, frame: EnvAddr, outer: EnvAddr,
      source: EnvAddr, sources: nat)
    requires i <= |defs|
    requires HeapFits(S, notes, h, Some(frame)) && frame < |S| && outer < |S| && source < |S|
    requires DefsFit(defs, S[frame].env, S[outer].env, sources, notes)
    requires sources > 0 ==> S[source].env == SourceEnv(S[frame].env) && S[source].slots == sources
    requires FilledUpTo(h, frame, i, |defs|)
    ensures var (addrs, h1) := FillDefs(ByName, defs, i, noShortcut, h, frame, outer, source);
      && FillDefs(ByIndex(notes), defs, i, noShortcut, Erase(h), frame, outer, source) == (addrs, Erase(h1))
      && Step(S, notes, h, S, h1, None)
      && AddrsFit(h1, addrs)
    decreases |defs| - i
  {
    if i == |defs| {
      HoleFilled(S, notes, h, frame);
    } else {
      var (a, h1) := DefThunk(ByName, defs[i], noShortcut, h, frame, outer, source);
      SimDefThunk(S, notes, defs[i], noShortcut, h, frame, outer, source, sources, Some(frame));
      SetSlotFits(S, notes, h1, Some(frame), frame, i, a);
      SimFillDefs(S, notes, defs, i + 1, noShortcut, SetSlot(h1, frame, i, a), frame, outer, source, sources);
    }
  }

  ghost predicate HoldsCell(cells: seq<Cell>, a: Addr, c: Cell) {
    a < |cells| && cells[a] == c
  }

  /** Cell `a` stands for an expression in a frame of `h`: it is delayed there, or was a literal
      or a reference whose slot was already filled. */
  ghost predicate StandsFor(m: Mode, h: Heap, cells: seq<Cell>, a: Addr, e: Expr, env: EnvAddr) {
    match e
    case Int(n) => HoldsCell(cells, a, Done(VInt(n)))
    case Str(s) => HoldsCell(cells, a, Done(VStr(s)))
    case Var(id, name) => FindSlot(m, id, name, h, env) == Slot(a) || HoldsCell(cells, a, Thunk(e, env))
    case InheritFrom(displ, own) =>
      SourceSlot(m, displ, own, h, env) == Slot(a) || HoldsCell(cells, a, Thunk(e, env))
    case _ => HoldsCell(cells, a, Thunk(e, env))
  }

  lemma {:induction false} LookupReadsFrames(m: Mode, id: NodeId, name: Symbol, h: Heap, h1: Heap, env: EnvAddr)
    requires h.envs == h1.envs
    ensures FindSlot(m, id, name, h, env) == FindSlot(m, id, name, h1, env)
  {
    match m
    case ByName => NameReadsFrames(name, h, h1, env);
    case ByIndex(notes) =>
      if id in notes.vars {
        WalkReadsFrames(h, h1, env, notes.vars[id].level);
      }
  }

  lemma {:induction false} NameReadsFrames(name: Symbol, h: Heap, h1: Heap, env: EnvAddr)
    requires h.envs == h1.envs
    ensures NameSlot(h, env, name) == NameSlot(h1, env, name)
    decreases env
  {
    if env < |h.envs| && h.envs[env].up.Some? && h.envs[env].up.value < env {
      NameReadsFrames(name, h, h1, h.envs[env].up.value);
    }
  }

  lemma {:induction false} WalkReadsFrames(h: Heap, h1: Heap, env: EnvAddr, level: nat)
    requires h.envs == h1.envs
    ensures WalkUp(h, env, level) == WalkUp(h1, env, level)
    decreases level
  {
    if level > 0 && env < |h.envs| && h.envs[env].up.Some? {
      WalkReadsFrames(h, h1, h.envs[env].up.value, level - 1);
    }
  }

  /** Expressions that are delayed together get one cell each, in order. */
  lemma {:induction false} ThunksStandFor(m: Mode, es: seq<Expr>, h: Heap, env: EnvAddr)
    ensures var (addrs, h1) := MaybeThunkAll(m, es, h, env);
      && h1.envs == h.envs && h.cells <= h1.cells
      && forall i :: 0 <= i < |es| ==> StandsFor(m, h, h1.cells, addrs[i], es[i], env)
    decreases |es|
  {
    if es != [] {
      var (a, h1) := MaybeThunk(m, es[0], h, env);
      var (rest, h2) := MaybeThunkAll(m, es[1..], h1, env);
      ThunksStandFor(m, es[1..], h1, env);
      forall i | 0 < i < |es|
        ensures StandsFor(m, h, h2.cells, rest[i - 1], es[i], env)
      {
        assert StandsFor(m, h1, h2.cells, rest[i - 1], es[1..][i - 1], env);
        if es[i].Var? {
          LookupReadsFrames(m, es[i].id, es[i].name, h, h1, env);
        }
      }
    }
  }

  /** Slot `d` of the frame of sources stands for source `d`, in the frame above it. */
  lemma {:induction false} SourceFrameHolds(m: Mode, from: seq<Expr>, h: Heap, up: EnvAddr, d: nat)
    requires d < |from|
    ensures var (source, h1) := SourceFrame(m, from, h, up);
      && source == |h.envs| && source < |h1.envs| && h1.envs[source].up == Some(up)
      && |h1.envs[source].slots| == |from| && h1.envs[source].slots[d].Some?
      && StandsFor(m, h, h1.cells, h1.envs[source].slots[d].value, from[d], up)
  {
    ThunksStandFor(m, from, h, up);
  }

  /** A frame with no names: the sources of `inherit (from)`. The frame under
      construction, if any, stays the only hole. */
  lemma {:induction false} SimSourceFrame(
      S: Typing, notes: Notes, from: seq<Expr>, h: Heap, up: EnvAddr, hole: Option<EnvAddr>) returns (S': Typing)
    requires HeapFits(S, notes, h, hole) && (hole.Some? ==> hole.value < |S|) && up < |S| &&
      ExprsFit(from, S[up].env, S[up].slots, notes)
    ensures var (source, h1) := SourceFrame(ByName, from, h, up);
      && SourceFrame(ByIndex(notes), from, Erase(h), up) == (source, Erase(h1))
      && Step(S, notes, h, S', h1, hole)
      && source < |S'|
      && (|from| > 0 ==> S'[source] == FrameTy(SourceEnv(S[up].env), |from|))
      && |h.envs| <= |h1.envs| && h1.envs[..|h.envs|] == h.envs
  {
    S' := S;
    if from != [] {
      var (addrs, h1) := MaybeThunkAll(ByName, from, h, up);
      SimMaybeThunkAll(S, notes, from, h, up, hole);
      S' := S + [FrameTy(SourceEnv(S[up].env), |from|)];
      AddFrameBesideHole(S, notes, h1, Env([], false, FullSlots(addrs), Some(up)),
        FrameTy(SourceEnv(S[up].env), |from|), hole);
    }
  }

  lemma {:induction false} AddFrameBesideHole(
      S: Typing, notes: Notes, h: Heap, f: Env, ty: FrameTy, hole: Option<EnvAddr>)
    requires HeapFits(S, notes, h, hole) && (hole.Some? ==> hole.value < |S|)
    requires f.up.Some? && f.up.value < |S|
    requires ty.env.StaticEnv? && ty.env.up == S[f.up.value].env && ty.env.isWith.None? && !f.isWith
    requires SlotsFit(ty, f)
    requires forall i :: 0 <= i < |f.slots| ==> f.slots[i].Some? && f.slots[i].value < |h.cells|
    ensures HeapFits(S + [ty], notes, NewEnv(ByName, h, f).1, hole)
    ensures NewEnv(ByIndex(notes), Erase(h), f) == (|S|, Erase(NewEnv(ByName, h, f).1))
  {
    var S', h' := S + [ty], NewEnv(ByName, h, f).1;
    forall a | 0 <= a < |S'|
      ensures FrameFits(S', h', a, hole) && WithsFit(S'[a].env, notes)
    {
      if a < |S| {
        assert FrameFits(S, h, a, hole);
      }
    }
    forall i | 0 <= i < |h'.cells|
      ensures CellFits(S', notes, |h'.cells|, h'.cells[i])
    {
      CellGrows(S, S', notes, |h.cells|, |h.cells|, h.cells[i]);
    }
    assert Erase(h').envs == Erase(h).envs + [EraseEnv(f)];
  }

  /** The frame of a `let` or recursive set. */
  lemma {:induction false} SimRecFrame(
      S: Typing, notes: Notes, defs: seq<AttrDef>, from: seq<Expr>, noShortcut: bool, h: Heap, env: EnvAddr)
    returns (S': Typing)
    requires HeapFits(S, notes, h, None) && env < |S|
    requires ExprsFit(from, RecEnv(defs, S[env].env), 0, notes)
    requires DefsFit(defs, RecEnv(defs, S[env].env), S[env].env, |from|, notes)
    ensures var (frame, addrs, h1) := RecFrame(ByName, defs, from, noShortcut, h, env);
      && RecFrame(ByIndex(notes), defs, from, noShortcut, Erase(h), env) == (frame, addrs, Erase(h1))
      && Step(S, notes, h, S', h1, None)
      && AddrsFit(h1, addrs)
      && frame < |S'| && S'[frame] == FrameTy(RecEnv(defs, S[env].env), 0)
  {
    var f := Env(NamesOf(defs), false, EmptySlots(|defs|), Some(env));
    var ty := FrameTy(RecEnv(defs, S[env].env), 0);
    RecSlotsFit(defs, S[env].env, env);
    NewEnvFits(S, notes, h, f, ty, false);
    var (frame, h1) := NewEnv(ByName, h, f);
    var S1 := S + [ty];
    var S2 := SimSourceFrame(S1, notes, from, h1, frame, Some(frame));
    var (source, h2) := SourceFrame(ByName, from, h1, frame);
    assert h2.envs[frame] == h2.envs[..|h1.envs|][frame] == f;
    SimFillDefs(S2, notes, defs, 0, noShortcut, h2, frame, env, source, |from|);
    S' := S2;
  }

  lemma {:induction false} ZipFits(defs: seq<AttrDef>, addrs: seq<Addr>, h: Heap)
    requires |defs| == |addrs| && AddrsFit(h, addrs)
    ensures AttrsFit(|h.cells|, Zip(defs, addrs))
  {
    if defs != [] {
      assert AddrsFit(h, addrs[1..]);
      ZipFits(defs[1..], addrs[1..], h);
    }
  }

  lemma {:induction false} SimOverride(
      S: Typing, notes: Notes, defs: seq<AttrDef>, i: nat, over: map<Symbol, Addr>, h: Heap, frame: EnvAddr)
    requires i <= |defs| && HeapFits(S, notes, h, None) && AttrsFit(|h.cells|, over)
    ensures Step(S, notes, h, S, Override(defs, i, over, h, frame), None)
    ensures Override(defs, i, over, Erase(h), frame) == Erase(Override(defs, i, over, h, frame))
    decreases |defs| - i
  {
    if i < |defs| {
      if defs[i].name in over {
        SetSlotFits(S, notes, h, None, frame, i, over[defs[i].name]);
        SimOverride(S, notes, defs, i + 1, over, SetSlot(h, frame, i, over[defs[i].name]), frame);
      } else {
        SimOverride(S, notes, defs, i + 1, over, h, frame);
      }
    }
  }

  lemma {:induction false} SimFillFormals(
      S: Typing, notes: Notes, fs: seq<Formal>, i: nat, base: nat, actual: map<Symbol, Addr>, h: Heap, frame: EnvAddr)
    requires i <= |fs| && HeapFits(S, notes, h, Some(frame)) && frame < |S|
    requires AttrsFit(|h.cells|, actual) && DefaultsFit(fs, S[frame].env, notes) && S[frame].slots == 0
    requires FilledUpTo(h, frame, base + i, base + |fs|)
    ensures var o := FillFormals(ByName, fs, i, base, actual, h, frame);
      && SameOut(o, FillFormals(ByIndex(notes), fs, i, base, actual, Erase(h), frame))
      && o.r != Err(Crash)
      && (o.r.Ok? ==> Step(S, notes, h, S, o.h, None))
    decreases |fs| - i
  {
    if i == |fs| {
      HoleFilled(S, notes, h, frame);
    } else if fs[i].name in actual {
      SetSlotFits(S, notes, h, Some(frame), frame, base + i, actual[fs[i].name]);
      SimFillFormals(S, notes, fs, i + 1, base, actual, SetSlot(h, frame, base + i, actual[fs[i].name]), frame);
    } else if fs[i].def.Some? {
      var (a, h1) := MaybeThunk(ByName, fs[i].def.value, h, frame);
      SimMaybeThunk(S, notes, fs[i].def.value, h, frame, Some(frame));
      SetSlotFits(S, notes, h1, Some(frame), frame, base + i, a);
      SimFillFormals(S, notes, fs, i + 1, base, actual, SetSlot(h1, frame, base + i, a), frame);
    }
  }

  /* Evaluation */

  /** What one step of the evaluator guarantees, in either mode: the same result from
      corresponding heaps, a heap that still matches, and no crash. */
  ghost predicate Simulates<T(!new)>(S: Typing, notes: Notes, h: Heap, o: Out<T>, o': Out<T>, S': Typing) {
    SameOut(o, o') && Step(S, notes, h, S', o.h, None) && o.r != Err(Crash)
  }

  ghost predicate ValueOut(S: Typing, notes: Notes, o: Out<Value>) {
    o.r.Ok? ==> ValueFits(S, notes, |o.h.cells|, o.r.value)
  }

  ghost predicate AddrOut(o: Out<Addr>) {
    o.r.Ok? ==> o.r.value < |o.h.cells|
  }

  ghost predicate AttrsOut(o: Out<map<Symbol, Addr>>) {
    o.r.Ok? ==> AttrsFit(|o.h.cells|, o.r.value)
  }

  lemma {:induction false} SimEval(S: Typing, notes: Notes, e: Expr, h: Heap, env: EnvAddr, fuel: nat)
    returns (S': Typing)
    requires HeapFits(S, notes, h, None) && ThunkFits(S, notes, e, env)
    ensures Simulates(S, notes, h, Eval(ByName, e, h, env, fuel), Eval(ByIndex(notes), e, Erase(h), env, fuel), S')
    ensures ValueOut(S', notes, Eval(ByName, e, h, env, fuel))
    decreases fuel, 1
  {
    hide Simulates, ValueOut, HeapFits, ThunkFits, Eval;
    if fuel == 0 {
      S' := SimLeaf(S, notes, e, h, env, fuel);
    } else {
      match e
      case Var(id, name) => S' := SimVar(S, notes, e, h, env, fuel);
      case InheritFrom(_, _) => S' := SimInheritFrom(S, notes, e, h, env, fuel);
      case Select(s, path, def) => S' := SimSelect(S, notes, e, h, env, fuel);
      case Attrs(_, _, _, _) => S' := SimAttrs(S, notes, e, h, env, fuel);
      case Call(_, _) => S' := SimCall(S, notes, e, h, env, fuel);
      case Let(_, _, _) => S' := SimLet(S, notes, e, h, env, fuel);
      case With(_, _, _) => S' := SimWith(S, notes, e, h, env, fuel);
      case If(_, _, _) => S' := SimIf(S, notes, e, h, env, fuel);
      case _ => S' := SimLeaf(S, notes, e, h, env, fuel);
    }
  }

  /** Without fuel, and the nodes that evaluate no other node. */
  lemma {:induction false} SimLeaf(S: Typing, notes: Notes, e: Expr, h: Heap, env: EnvAddr, fuel: nat)
    returns (S': Typing)
    requires fuel == 0 || e.Int? || e.Str? || e.Null? || e.List? || e.Lambda?
    requires HeapFits(S, notes, h, None) && ThunkFits(S, notes, e, env)
    ensures Simulates(S, notes, h, Eval(ByName, e, h, env, fuel), Eval(ByIndex(notes), e, Erase(h), env, fuel), S')
    ensures ValueOut(S', notes, Eval(ByName, e, h, env, fuel))
  {
    S' := S;
    if fuel > 0 && e.List? {
      ListParts(e, S[env].env, S[env].slots, notes);
      SimMaybeThunkAll(S, notes, e.elems, h, env, None);
    }
  }

  lemma {:induction false} SimInheritFrom(S: Typing, notes: Notes, e: Expr, h: Heap, env: EnvAddr, fuel: nat)
    returns (S': Typing)
    requires fuel > 0 && e.InheritFrom? && HeapFits(S, notes, h, None) && ThunkFits(S, notes, e, env)
    ensures Simulates(S, notes, h, Eval(ByName, e, h, env, fuel), Eval(ByIndex(notes), e, Erase(h), env, fuel), S')
    ensures ValueOut(S', notes, Eval(ByName, e, h, env, fuel))
    decreases fuel, 0
  {
    SourceSlotAgrees(S, notes, h, None, e.displ, e.own, env);
    S' := SimForce(S, notes, SourceSlot(ByName, e.displ, e.own, h, env).a, h, fuel - 1);
  }

  lemma {:induction false} SimLet(S: Typing, notes: Notes, e: Expr, h: Heap, env: EnvAddr, fuel: nat)
    returns (S': Typing)
    requires fuel > 0 && e.Let? && HeapFits(S, notes, h, None) && ThunkFits(S, notes, e, env)
    ensures Simulates(S, notes, h, Eval(ByName, e, h, env, fuel), Eval(ByIndex(notes), e, Erase(h), env, fuel), S')
    ensures ValueOut(S', notes, Eval(ByName, e, h, env, fuel))
    decreases fuel, 0
  {
    LetParts(e, S[env].env, S[env].slots, notes);
    var S1 := SimRecFrame(S, notes, e.defs, e.from, false, h, env);
    var (frame, _, h1) := RecFrame(ByName, e.defs, e.from, false, h, env);
    S' := SimEval(S1, notes, e.body, h1, frame, fuel - 1);
  }

  lemma {:induction false} SimVar(S: Typing, notes: Notes, e: Expr, h: Heap, env: EnvAddr, fuel: nat)
    returns (S': Typing)
    requires fuel > 0 && e.Var? && HeapFits(S, notes, h, None) && ThunkFits(S, notes, e, env)
    ensures Simulates(S, notes, h, Eval(ByName, e, h, env, fuel), Eval(ByIndex(notes), e, Erase(h), env, fuel), S')
    ensures ValueOut(S', notes, Eval(ByName, e, h, env, fuel))
    decreases fuel, 0
  {
    S' := SimLookup(S, notes, e.id, e.name, h, env, fuel - 1);
    var o := LookupVar(ByName, e.id, e.name, h, env, fuel - 1);
    if o.r.Ok? {
      S' := SimForce(S', notes, o.r.value, o.h, fuel - 1);
    }
  }

  lemma {:induction false} SimForce(S: Typing, notes: Notes, a: Addr, h: Heap, fuel: nat) returns (S': Typing)
    requires HeapFits(S, notes, h, None) && a < |h.cells|
    ensures Simulates(S, notes, h, Force(ByName, a, h, fuel), Force(ByIndex(notes), a, Erase(h), fuel), S')
    ensures ValueOut(S', notes, Force(ByName, a, h, fuel))
    decreases fuel, 0
  {
    S' := S;
    if fuel > 0 {
      assert CellFits(S, notes, |h.cells|, h.cells[a]);
      match h.cells[a]
      case Thunk(e, env) =>
        SetCellFits(S, notes, h, None, a, Blackhole);
        var h1 := SetCell(h, a, Blackhole);
        S' := SimEval(S, notes, e, h1, env, fuel - 1);
        var o := Eval(ByName, e, h1, env, fuel - 1);
        if o.r.Ok? {
          SetCellFits(S', notes, o.h, None, a, Done(o.r.value));
        } else if o.r.Err? {
          SetCellFits(S', notes, o.h, None, a, Failed(o.r.error));
        }
      case Blackhole =>
        SetCellFits(S, notes, h, None, a, Failed(InfiniteRecursion));
      case _ =>
    }
  }

  lemma {:induction false} SimForceAttrs(S: Typing, notes: Notes, a: Addr, h: Heap, fuel: nat) returns (S': Typing)
    requires HeapFits(S, notes, h, None) && a < |h.cells|
    ensures Simulates(S, notes, h, ForceAttrs(ByName, a, h, fuel), ForceAttrs(ByIndex(notes), a, Erase(h), fuel), S')
    ensures AttrsOut(ForceAttrs(ByName, a, h, fuel))
    decreases fuel, 0
  {
    S' := S;
    if fuel > 0 {
      S' := SimForce(S, notes, a, h, fuel - 1);
    }
  }

  lemma {:induction false} SimLookup(
      S: Typing, notes: Notes, id: NodeId, name: Symbol, h: Heap, env: EnvAddr, fuel: nat) returns (S': Typing)
    requires HeapFits(S, notes, h, None) && ThunkFits(S, notes, Var(id, name), env)
    ensures Simulates(S, notes, h, LookupVar(ByName, id, name, h, env, fuel),
      LookupVar(ByIndex(notes), id, name, Erase(h), env, fuel), S')
    ensures AddrOut(LookupVar(ByName, id, name, h, env, fuel))
    decreases fuel, 0
  {
    S' := S;
    if fuel > 0 {
      FindSlotAgrees(S, notes, h, None, id, name, env);
      if FindSlot(ByName, id, name, h, env).NotLexical? {
        S' := SimWiths(S, notes, name, NextWith(h, env).value, h, fuel - 1);
      }
    }
  }

  /** The `parentWith` chain visits the frames that the by-name search visits. */
  lemma {:induction false} SimWiths(S: Typing, notes: Notes, name: Symbol, w: EnvAddr, h: Heap, fuel: nat)
    returns (S': Typing)
    requires HeapFits(S, notes, h, None) && w < |S| && S[w].env.StaticEnv? && S[w].env.isWith.Some?
    ensures Simulates(S, notes, h, SearchWiths(ByName, name, w, h, fuel),
      FollowWiths(ByIndex(notes), name, S[w].env.isWith, w, Erase(h), fuel), S')
    ensures AddrOut(SearchWiths(ByName, name, w, h, fuel))
    decreases fuel, 0
  {
    hide ForceAttrs, Fits, CellFits;
    S' := S;
    if fuel > 0 {
      assert FrameFits(S, h, w, None) && WithsFit(S[w].env, notes);
      var a := h.envs[w].slots[0].value;
      S' := SimForceAttrs(S, notes, a, h, fuel - 1);
      var o := ForceAttrs(ByName, a, h, fuel - 1);
      if o.r.Ok? && name !in o.r.value {
        assert S'[w] == S[w];
        assert FrameFits(S', o.h, w, None);
        var up := o.h.envs[w].up;
        if up.Some? {
          NearestWithFrame(S', notes, o.h, None, up.value);
          var next := NextWith(o.h, up.value);
          if next.Some? {
            WalkErased(o.h, w, notes.withs[S[w].env.isWith.value].prevWith);
            S' := SimWiths(S', notes, name, next.value, o.h, fuel - 1);
          }
        }
      }
    }
  }

  lemma {:induction false} SimSelect(S: Typing, notes: Notes, e: Expr, h: Heap, env: EnvAddr, fuel: nat)
    returns (S': Typing)
    requires fuel > 0 && e.Select? && HeapFits(S, notes, h, None) && ThunkFits(S, notes, e, env)
    ensures Simulates(S, notes, h, Eval(ByName, e, h, env, fuel), Eval(ByIndex(notes), e, Erase(h), env, fuel), S')
    ensures ValueOut(S', notes, Eval(ByName, e, h, env, fuel))
    decreases fuel, 0
  {
    SelectParts(e, S[env].env, S[env].slots, notes);
    S' := SimEval(S, notes, e.e, h, env, fuel - 1);
    var o := Eval(ByName, e.e, h, env, fuel - 1);
    if o.r.Ok? {
      S' := SimSelectPath(S', notes, o.r.value, e.path, e.def, o.h, env, fuel - 1);
    }
  }

  lemma {:induction false} SimSelectPath(
      S: Typing, notes: Notes, v: Value, path: seq<Symbol>, def: Option<Expr>, h: Heap, env: EnvAddr, fuel: nat)
    returns (S': Typing)
    requires HeapFits(S, notes, h, None) && env < |S| && ValueFits(S, notes, |h.cells|, v)
    requires def.Some? ==> ThunkFits(S, notes, def.value, env)
    ensures Simulates(S, notes, h, SelectPath(ByName, v, path, def, h, env, fuel),
      SelectPath(ByIndex(notes), v, path, def, Erase(h), env, fuel), S')
    ensures ValueOut(S', notes, SelectPath(ByName, v, path, def, h, env, fuel))
    decreases fuel, 0
  {
    S' := S;
    if fuel > 0 && path != [] {
      if v.VAttrs? && path[0] in v.attrs {
        S' := SimForce(S, notes, v.attrs[path[0]], h, fuel - 1);
        var o := Force(ByName, v.attrs[path[0]], h, fuel - 1);
        if o.r.Ok? {
          S' := SimSelectPath(S', notes, o.r.value, path[1..], def, o.h, env, fuel - 1);
        }
      } else if def.Some? {
        S' := SimEval(S, notes, def.value, h, env, fuel - 1);
      }
    }
  }

  lemma {:induction false} SimAttrs(S: Typing, notes: Notes, e: Expr, h: Heap, env: EnvAddr, fuel: nat)
    returns (S': Typing)
    requires fuel > 0 && e.Attrs? && HeapFits(S, notes, h, None) && ThunkFits(S, notes, e, env)
    ensures Simulates(S, notes, h, Eval(ByName, e, h, env, fuel), Eval(ByIndex(notes), e, Erase(h), env, fuel), S')
    ensures ValueOut(S', notes, Eval(ByName, e, h, env, fuel))
    decreases fuel, 0
  {
    AttrsParts(e, S[env].env, S[env].slots, notes);
    if e.recursive {
      S' := SimEvalRec(S, notes, e.defs, e.from, e.dyn, h, env, fuel - 1);
    } else {
      SourcesMoreSlots(e.from, S[env].env, S[env].slots, notes);
      var S1 := SimSourceFrame(S, notes, e.from, h, env, None);
      var (source, h1) := SourceFrame(ByName, e.from, h, env);
      SimPlainDefs(S1, notes, e.defs, h1, env, source, |e.from|);
      var (addrs, h2) := PlainDefs(ByName, e.defs, h1, env, source);
      ZipFits(e.defs, addrs, h2);
      S' := SimAddDynamic(S1, notes, e.dyn, Zip(e.defs, addrs), h2, env, fuel - 1);
    }
  }

  lemma {:induction false} SourcesMoreSlots(es: seq<Expr>, env: StaticEnv, slots: nat, notes: Notes)
    requires ExprsFit(es, env, 0, notes)
    ensures ExprsFit(es, env, slots, notes)
  {
    forall i | 0 <= i < |es|
      ensures Fits(es[i], env, slots, notes)
    {
      FitsMoreSlots(es[i], env, 0, slots, notes);
    }
  }

  lemma {:induction false} SimEvalRec(
      S: Typing, notes: Notes, defs: seq<AttrDef>, from: seq<Expr>, dyn: seq<DynAttr>, h: Heap, env: EnvAddr, fuel: nat)
    returns (S': Typing)
    requires HeapFits(S, notes, h, None) && env < |S|
    requires ExprsFit(from, RecEnv(defs, S[env].env), 0, notes)
    requires DefsFit(defs, RecEnv(defs, S[env].env), S[env].env, |from|, notes)
    requires DynsFit(dyn, RecEnv(defs, S[env].env), notes)
    ensures Simulates(S, notes, h, EvalRec(ByName, defs, from, dyn, h, env, fuel),
      EvalRec(ByIndex(notes), defs, from, dyn, Erase(h), env, fuel), S')
    ensures ValueOut(S', notes, EvalRec(ByName, defs, from, dyn, h, env, fuel))
    decreases fuel, 0
  {
    S' := S;
    if fuel > 0 {
      hide Fits, HeapFits, AddDynamic, ForceAttrs, Override, RecFrame;
      var over := DefIndex(defs, OVERRIDES);
      S' := SimRecFrame(S, notes, defs, from, over.Some?, h, env);
      var (frame, addrs, h1) := RecFrame(ByName, defs, from, over.Some?, h, env);
      ZipFits(defs, addrs, h1);
      var bindings := Zip(defs, addrs);
      if over.None? {
        S' := SimAddDynamic(S', notes, dyn, bindings, h1, frame, fuel - 1);
      } else {
        S' := SimOverridden(S', notes, defs, dyn, bindings, addrs[over.value], h1, frame, fuel);
      }
    }
  }

  /** A recursive set from forcing its `__overrides` on. */
  lemma {:induction false} SimOverridden(
      S: Typing, notes: Notes, defs: seq<AttrDef>, dyn: seq<DynAttr>, bindings: map<Symbol, Addr>, a: Addr, h: Heap,
      frame: EnvAddr, fuel: nat) returns (S': Typing)
    requires HeapFits(S, notes, h, None) && frame < |S| && a < |h.cells| && AttrsFit(|h.cells|, bindings)
    requires DynsFit(dyn, S[frame].env, notes)
    requires fuel > 0
    ensures Simulates(S, notes, h, AfterOverrides(ByName, defs, dyn, bindings, a, h, frame, fuel),
      AfterOverrides(ByIndex(notes), defs, dyn, bindings, a, Erase(h), frame, fuel), S')
    ensures ValueOut(S', notes, AfterOverrides(ByName, defs, dyn, bindings, a, h, frame, fuel))
    decreases fuel - 1, 2
  {
    hide Fits, HeapFits, AddDynamic, ForceAttrs, Override;
    S' := SimForceAttrs(S, notes, a, h, fuel - 1);
    var o := ForceAttrs(ByName, a, h, fuel - 1);
    if o.r.Ok? {
      assert S'[frame] == S[frame];
      SimOverride(S', notes, defs, 0, o.r.value, o.h, frame);
      S' := SimAddDynamic(S', notes, dyn, bindings + o.r.value, Override(defs, 0, o.r.value, o.h, frame), frame,
        fuel - 1);
    }
  }

  lemma {:induction false} SimAddDynamic(
      S: Typing, notes: Notes, dyn: seq<DynAttr>, bindings: map<Symbol, Addr>, h: Heap, env: EnvAddr, fuel: nat)
    returns (S': Typing)
    requires HeapFits(S, notes, h, None) && env < |S| && DynsFit(dyn, S[env].env, notes) &&
      AttrsFit(|h.cells|, bindings)
    ensures Simulates(S, notes, h, AddDynamic(ByName, dyn, bindings, h, env, fuel),
      AddDynamic(ByIndex(notes), dyn, bindings, Erase(h), env, fuel), S')
    ensures ValueOut(S', notes, AddDynamic(ByName, dyn, bindings, h, env, fuel))
    decreases fuel, 0
  {
    S' := S;
    if fuel > 0 && dyn != [] {
      var e, x := dyn[0].nameExpr, dyn[0].valueExpr;
      FitsMoreSlots(e, S[env].env, 0, S[env].slots, notes);
      S' := SimEval(S, notes, e, h, env, fuel - 1);
      var o := Eval(ByName, e, h, env, fuel - 1);
      assert S'[env] == S[env];
      if o.r.Ok? && o.r.value.VNull? {
        S' := SimAddDynamic(S', notes, dyn[1..], bindings, o.h, env, fuel - 1);
      } else if o.r.Ok? && o.r.value.VStr? && o.r.value.s !in bindings {
        FitsMoreSlots(x, S[env].env, 0, S[env].slots, notes);
        SimMaybeThunk(S', notes, x, o.h, env, None);
        var (a, h1) := MaybeThunk(ByName, x, o.h, env);
        S' := SimAddDynamic(S', notes, dyn[1..], bindings[o.r.value.s := a], h1, env, fuel - 1);
      }
    }
  }

  lemma {:induction false} SimWith(S: Typing, notes: Notes, e: Expr, h: Heap, env: EnvAddr, fuel: nat)
    returns (S': Typing)
    requires fuel > 0 && e.With? && HeapFits(S, notes, h, None) && ThunkFits(S, notes, e, env)
    ensures Simulates(S, notes, h, Eval(ByName, e, h, env, fuel), Eval(ByIndex(notes), e, Erase(h), env, fuel), S')
    ensures ValueOut(S', notes, Eval(ByName, e, h, env, fuel))
    decreases fuel, 0
  {
    WithParts(e, S[env].env, S[env].slots, notes);
    SimMaybeThunk(S, notes, e.attrs, h, env, None);
    var (a, h1) := MaybeThunk(ByName, e.attrs, h, env);
    var f, ty := Env([], true, [Some(a)], Some(env)), FrameTy(StaticEnv(Some(e.id), [], S[env].env), 0);
    NewEnvFits(S, notes, h1, f, ty, true);
    var (frame, h2) := NewEnv(ByName, h1, f);
    S' := SimEval(S + [ty], notes, e.body, h2, frame, fuel - 1);
  }

  lemma {:induction false} SimIf(S: Typing, notes: Notes, e: Expr, h: Heap, env: EnvAddr, fuel: nat)
    returns (S': Typing)
    requires fuel > 0 && e.If? && HeapFits(S, notes, h, None) && ThunkFits(S, notes, e, env)
    ensures Simulates(S, notes, h, Eval(ByName, e, h, env, fuel), Eval(ByIndex(notes), e, Erase(h), env, fuel), S')
    ensures ValueOut(S', notes, Eval(ByName, e, h, env, fuel))
    decreases fuel, 0
  {
    IfParts(e, S[env].env, S[env].slots, notes);
    S' := SimEval(S, notes, e.cond, h, env, fuel - 1);
    var o := Eval(ByName, e.cond, h, env, fuel - 1);
    if o.r.Ok? && o.r.value.VBool? {
      assert S'[env] == S[env];
      S' := SimEval(S', notes, if o.r.value.b then e.thn else e.els, o.h, env, fuel - 1);
    }
  }

  lemma {:induction false} SimCall(S: Typing, notes: Notes, e: Expr, h: Heap, env: EnvAddr, fuel: nat)
    returns (S': Typing)
    requires fuel > 0 && e.Call? && HeapFits(S, notes, h, None) && ThunkFits(S, notes, e, env)
    ensures Simulates(S, notes, h, Eval(ByName, e, h, env, fuel), Eval(ByIndex(notes), e, Erase(h), env, fuel), S')
    ensures ValueOut(S', notes, Eval(ByName, e, h, env, fuel))
    decreases fuel, 0
  {
    CallParts(e, S[env].env, S[env].slots, notes);
    S' := SimEval(S, notes, e.fun, h, env, fuel - 1);
    var o := Eval(ByName, e.fun, h, env, fuel - 1);
    if o.r.Ok? {
      assert S'[env] == S[env];
      SimMaybeThunkAll(S', notes, e.args, o.h, env, None);
      var (addrs, h1) := MaybeThunkAll(ByName, e.args, o.h, env);
      CellGrows(S', S', notes, |o.h.cells|, |h1.cells|, Done(o.r.value));
      S' := SimCallFunction(S', notes, o.r.value, addrs, h1, fuel - 1);
    }
  }

  lemma {:induction false} SimArgFrame(S: Typing, notes: Notes, f: Value, x: Addr, h: Heap, fuel: nat)
    returns (S': Typing)
    requires HeapFits(S, notes, h, None) && f.VLambda? && ValueFits(S, notes, |h.cells|, f) && x < |h.cells|
    ensures Simulates(S, notes, h, ArgFrame(ByName, f, x, h, fuel), ArgFrame(ByIndex(notes), f, x, Erase(h), fuel), S')
    ensures var o := ArgFrame(ByName, f, x, h, fuel);
      o.r.Ok? ==> o.r.value < |S'| && S'[o.r.value] == FrameTy(LambdaEnv(f.arg, f.formals, S[f.env].env), 0)
    decreases fuel, 0
  {
    hide HeapFits, Fits, ArgFrame, Simulates, LambdaEnv, ValueFits;
    if fuel == 0 || f.formals.None? {
      S' := SimPlainArg(S, notes, f, x, h, fuel);
    } else {
      S' := SimFormalsArg(S, notes, f, x, h, fuel);
    }
  }

  lemma {:induction false} SimPlainArg(S: Typing, notes: Notes, f: Value, x: Addr, h: Heap, fuel: nat)
    returns (S': Typing)
    requires HeapFits(S, notes, h, None) && f.VLambda? && ValueFits(S, notes, |h.cells|, f) && x < |h.cells|
    requires fuel == 0 || f.formals.None?
    ensures Simulates(S, notes, h, ArgFrame(ByName, f, x, h, fuel), ArgFrame(ByIndex(notes), f, x, Erase(h), fuel), S')
    ensures var o := ArgFrame(ByName, f, x, h, fuel);
      o.r.Ok? ==> o.r.value < |S'| && S'[o.r.value] == FrameTy(LambdaEnv(f.arg, f.formals, S[f.env].env), 0)
  {
    hide HeapFits, Fits, LambdaEnv, NewEnv;
    S' := S;
    if fuel > 0 {
      S' := SimPlainFrame(S, notes, f, x, h);
    }
  }

  lemma {:induction false} SimFormalsArg(S: Typing, notes: Notes, f: Value, x: Addr, h: Heap, fuel: nat)
    returns (S': Typing)
    requires HeapFits(S, notes, h, None) && f.VLambda? && ValueFits(S, notes, |h.cells|, f) && x < |h.cells|
    requires fuel > 0 && f.formals.Some?
    ensures Simulates(S, notes, h, ArgFrame(ByName, f, x, h, fuel), ArgFrame(ByIndex(notes), f, x, Erase(h), fuel), S')
    ensures var o := ArgFrame(ByName, f, x, h, fuel);
      o.r.Ok? ==> o.r.value < |S'| && S'[o.r.value] == FrameTy(LambdaEnv(f.arg, f.formals, S[f.env].env), 0)
    decreases fuel - 1, 2
  {
    hide HeapFits, Fits, ForceAttrs, FillFormals, NewEnv, LambdaEnv;
    S' := SimForceAttrs(S, notes, x, h, fuel - 1);
    var o := ForceAttrs(ByName, x, h, fuel - 1);
    if o.r.Ok? {
      assert S'[f.env] == S[f.env];
      CellGrows(S, S', notes, |h.cells|, |o.h.cells|, Done(f));
      SimFormalsFrame(S', notes, f, x, o.r.value, o.h);
      if ArgFrame(ByName, f, x, h, fuel).r.Ok? {
        S' := S' + [FrameTy(LambdaEnv(f.arg, f.formals, S[f.env].env), 0)];
      }
    }
  }

  /** The frame of a lambda with a plain argument. */
  lemma {:induction false} SimPlainFrame(S: Typing, notes: Notes, f: Value, x: Addr, h: Heap) returns (S': Typing)
    requires HeapFits(S, notes, h, None) && f.VLambda? && f.formals.None? && ValueFits(S, notes, |h.cells|, f)
    requires x < |h.cells|
    ensures var frameEnv := Env(ArgNames(f.arg), false, if f.arg.Some? then [Some(x)] else [], Some(f.env));
      var (frame, h1) := NewEnv(ByName, h, frameEnv);
      && NewEnv(ByIndex(notes), Erase(h), frameEnv) == (frame, Erase(h1))
      && frame == |S|
      && S' == S + [FrameTy(LambdaEnv(f.arg, f.formals, S[f.env].env), 0)]
      && Step(S, notes, h, S', h1, None)
  {
    var ty := FrameTy(LambdaEnv(f.arg, f.formals, S[f.env].env), 0);
    var slots := if f.arg.Some? then [Some(x)] else [];
    LambdaSlotsFit(f.arg, f.formals, S[f.env].env, slots, f.env);
    assert ArgNames(f.arg) + FormalNames(FormalsOf(f.formals)) == ArgNames(f.arg);
    NewEnvFits(S, notes, h, Env(ArgNames(f.arg), false, slots, Some(f.env)), ty, true);
    S' := S + [ty];
  }

  lemma {:induction false} LambdaWf(e: Expr, env: StaticEnv, slots: nat, notes: Notes)
    requires e.Lambda? && Fits(e, env, slots, notes)
    ensures WfFormals(e.arg, e.formals)
  {
  }

  /** The frame of a lambda with formals, once its argument is known to be a set. */
  lemma {:induction false} SimFormalsFrame(
      S: Typing, notes: Notes, f: Value, x: Addr, actual: map<Symbol, Addr>, h: Heap)
    requires HeapFits(S, notes, h, None) && f.VLambda? && f.formals.Some? && ValueFits(S, notes, |h.cells|, f)
    requires x < |h.cells| && AttrsFit(|h.cells|, actual)
    ensures var fs := f.formals.value.formals;
      var frameEnv := Env(ArgNames(f.arg) + FormalNames(fs), false,
        (if f.arg.Some? then [Some(x)] else []) + EmptySlots(|fs|), Some(f.env));
      var ty := FrameTy(LambdaEnv(f.arg, f.formals, S[f.env].env), 0);
      var (frame, h1) := NewEnv(ByName, h, frameEnv);
      var o := FillFormals(ByName, fs, 0, |ArgNames(f.arg)|, actual, h1, frame);
      && NewEnv(ByIndex(notes), Erase(h), frameEnv) == (frame, Erase(h1))
      && frame == |S|
      && SameOut(o, FillFormals(ByIndex(notes), fs, 0, |ArgNames(f.arg)|, actual, Erase(h1), frame))
      && o.r != Err(Crash)
      && (o.r.Ok? ==> Step(S, notes, h, S + [ty], o.h, None))
  {
    LambdaWf(Lambda(f.arg, f.formals, f.body), S[f.env].env, S[f.env].slots, notes);
    hide Fits, FillFormals;
    var fs := f.formals.value.formals;
    var slots := (if f.arg.Some? then [Some(x)] else []) + EmptySlots(|fs|);
    var frameEnv := Env(ArgNames(f.arg) + FormalNames(fs), false, slots, Some(f.env));
    var ty := FrameTy(LambdaEnv(f.arg, f.formals, S[f.env].env), 0);
    LambdaParts(Lambda(f.arg, f.formals, f.body), S[f.env].env, S[f.env].slots, notes);
    LambdaSlotsFit(f.arg, f.formals, S[f.env].env, slots, f.env);
    NewEnvFits(S, notes, h, frameEnv, ty, false);
    var (frame, h1) := NewEnv(ByName, h, frameEnv);
    SimFillFormals(S + [ty], notes, fs, 0, |ArgNames(f.arg)|, actual, h1, frame);
  }

  lemma {:induction false} SimCallFunction(S: Typing, notes: Notes, f: Value, args: seq<Addr>, h: Heap, fuel: nat)
    returns (S': Typing)
    requires HeapFits(S, notes, h, None) && ValueFits(S, notes, |h.cells|, f) && AddrsFit(h, args)
    ensures Simulates(S, notes, h, CallFunction(ByName, f, args, h, fuel),
      CallFunction(ByIndex(notes), f, args, Erase(h), fuel), S')
    ensures ValueOut(S', notes, CallFunction(ByName, f, args, h, fuel))
    decreases fuel, 0
  {
    hide HeapFits, Fits, Eval, ArgFrame;
    S' := S;
    if fuel > 0 && args != [] {
      if f.VLambda? {
        S' := SimCallLambda(S, notes, f, args, h, fuel);
      } else if f.VAttrs? && FUNCTOR in f.attrs {
        S' := SimFunctor(S, notes, f, args, h, fuel);
      }
    }
  }

  /** The body of a lambda fits the frame made for its call. */
  lemma {:induction false} BodyFits(S: Typing, notes: Notes, cells: nat, f: Value, S': Typing, frame: EnvAddr)
    requires f.VLambda? && ValueFits(S, notes, cells, f)
    requires frame < |S'| && S'[frame] == FrameTy(LambdaEnv(f.arg, f.formals, S[f.env].env), 0)
    ensures ThunkFits(S', notes, f.body, frame)
  {
    LambdaParts(Lambda(f.arg, f.formals, f.body), S[f.env].env, S[f.env].slots, notes);
  }

  lemma {:induction false} SimCallLambda(S: Typing, notes: Notes, f: Value, args: seq<Addr>, h: Heap, fuel: nat)
    returns (S': Typing)
    requires HeapFits(S, notes, h, None) && ValueFits(S, notes, |h.cells|, f) && AddrsFit(h, args)
    requires fuel > 0 && args != [] && f.VLambda?
    ensures Simulates(S, notes, h, CallFunction(ByName, f, args, h, fuel),
      CallFunction(ByIndex(notes), f, args, Erase(h), fuel), S')
    ensures ValueOut(S', notes, CallFunction(ByName, f, args, h, fuel))
    decreases fuel - 1, 2
  {
    hide HeapFits, ThunkFits, ValueFits, LambdaEnv, Eval, ArgFrame;
    S' := SimArgFrame(S, notes, f, args[0], h, fuel - 1);
    var o := ArgFrame(ByName, f, args[0], h, fuel - 1);
    if o.r.Ok? {
      BodyFits(S, notes, |h.cells|, f, S', o.r.value);
      S' := SimEval(S', notes, f.body, o.h, o.r.value, fuel - 1);
      var r := Eval(ByName, f.body, o.h, o.r.value, fuel - 1);
      if r.r.Ok? {
        S' := SimCallFunction(S', notes, r.r.value, args[1..], r.h, fuel - 1);
      }
    }
  }

  lemma {:induction false} SimFunctor(S: Typing, notes: Notes, f: Value, args: seq<Addr>, h: Heap, fuel: nat)
    returns (S': Typing)
    requires HeapFits(S, notes, h, None) && ValueFits(S, notes, |h.cells|, f) && AddrsFit(h, args)
    requires fuel > 0 && args != [] && f.VAttrs? && FUNCTOR in f.attrs
    ensures Simulates(S, notes, h, CallFunction(ByName, f, args, h, fuel),
      CallFunction(ByIndex(notes), f, args, Erase(h), fuel), S')
    ensures ValueOut(S', notes, CallFunction(ByName, f, args, h, fuel))
    decreases fuel - 1, 2
  {
    hide HeapFits, Fits, Force, CellFits;
    NewCellFits(S, notes, h, None, Done(f));
    var (self, h1) := NewCell(h, Done(f));
    S' := SimForce(S, notes, f.attrs[FUNCTOR], h1, fuel - 1);
    var o := Force(ByName, f.attrs[FUNCTOR], h1, fuel - 1);
    if o.r.Ok? {
      S' := SimCallFunction(S', notes, o.r.value, [self, args[0]], o.h, fuel - 1);
      var r := CallFunction(ByName, o.r.value, [self, args[0]], o.h, fuel - 1);
      if r.r.Ok? {
        S' := SimCallFunction(S', notes, r.r.value, args[1..], r.h, fuel - 1);
      }
    }
  }
}
