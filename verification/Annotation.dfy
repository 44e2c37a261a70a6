/** What `bindVars` leaves behind: every node of a bound expression carries the
    fields its static environment dictates. */
module Annotation {
  import opened Common
  import opened StaticVars
  import opened Syntax
  import opened Binder

  ghost predicate SameTasks(ts: seq<Task>, us: seq<Task>, sameSlots: bool, sameEnv: bool) {
    && |ts| == |us|
    && forall i :: 0 <= i < |ts| ==>
         && ts[i].e == us[i].e
         && (sameSlots ==> ts[i].slots == us[i].slots)
         && (sameEnv ==> ts[i].env == us[i].env)
  }

  lemma {:induction false} SameAppend(
      ts: seq<Task>, us: seq<Task>, ts': seq<Task>, us': seq<Task>, sameSlots: bool, sameEnv: bool)
    requires SameTasks(ts, us, sameSlots, sameEnv) && SameTasks(ts', us', sameSlots, sameEnv)
    ensures SameTasks(ts + ts', us + us', sameSlots, sameEnv)
  {
  }

  /** The pass visits the same children with the same slot counts whatever the environment. */
  lemma {:induction false} TasksSame(e: Expr, env: StaticEnv, other: StaticEnv, slots: nat, otherSlots: nat)
    ensures SameTasks(Tasks(e, env, slots), Tasks(e, other, otherSlots), slots == otherSlots, env == other)
  {
    match e
    case Lambda(_, _, _) => LambdaTasksSame(e, env, other, slots, otherSlots);
    case Attrs(_, _, _, _) => AttrsTasksSame(e, env, other, slots, otherSlots);
    case Let(_, _, _) => LetTasksSame(e, env, other, slots, otherSlots);
    case List(_) => PlainTasksSame(e, env, other, slots, otherSlots);
    case Call(_, _) => PlainTasksSame(e, env, other, slots, otherSlots);
    case _ =>
      if |Tasks(e, env, slots)| > 0 {
        LeafTasksSame(e, env, other, slots, otherSlots);
      }
  }

  lemma {:induction false} PlainTasksSame(e: Expr, env: StaticEnv, other: StaticEnv, slots: nat, otherSlots: nat)
    requires e.List? || e.Call?
    ensures SameTasks(Tasks(e, env, slots), Tasks(e, other, otherSlots), slots == otherSlots, env == other)
  {
    var es := if e.List? then e.elems else e.args;
    var ts, us := ExprTasks(es, env, slots), ExprTasks(es, other, otherSlots);
    if e.Call? {
      SameAppend([Task(e.fun, env, slots)], [Task(e.fun, other, otherSlots)], ts, us,
                 slots == otherSlots, env == other);
    }
  }

  lemma {:induction false} LeafTasksSame(e: Expr, env: StaticEnv, other: StaticEnv, slots: nat, otherSlots: nat)
    requires e.Select? || e.With? || e.If?
    ensures SameTasks(Tasks(e, env, slots), Tasks(e, other, otherSlots), slots == otherSlots, env == other)
  {
    var ts, us := Tasks(e, env, slots), Tasks(e, other, otherSlots);
    assert |ts| == |us| <= 3;
    assert ts[0].e == us[0].e;
    assert |ts| > 1 ==> ts[1].e == us[1].e;
    assert |ts| > 2 ==> ts[2].e == us[2].e;
  }

  lemma {:induction false} LambdaTasksSame(e: Expr, env: StaticEnv, other: StaticEnv, slots: nat, otherSlots: nat)
    requires e.Lambda?
    ensures SameTasks(Tasks(e, env, slots), Tasks(e, other, otherSlots), true, env == other)
  {
    var i1, i2 := LambdaEnv(e.arg, e.formals, env), LambdaEnv(e.arg, e.formals, other);
    DefaultTasksSame(FormalsOf(e.formals), i1, i2);
    SameAppend(DefaultTasks(FormalsOf(e.formals), i1), DefaultTasks(FormalsOf(e.formals), i2),
               [Task(e.body, i1, 0)], [Task(e.body, i2, 0)], true, env == other);
  }

  lemma {:induction false} AttrsTasksSame(e: Expr, env: StaticEnv, other: StaticEnv, slots: nat, otherSlots: nat)
    requires e.Attrs?
    ensures SameTasks(Tasks(e, env, slots), Tasks(e, other, otherSlots), true, env == other)
  {
    var i1 := if e.recursive then RecEnv(e.defs, env) else env;
    var i2 := if e.recursive then RecEnv(e.defs, other) else other;
    DefPartsSame(e.defs, e.from, i1, i2, env, other);
    DynTasksSame(e.dyn, i1, i2);
    SameAppend(ExprTasks(e.from, i1, 0) + DefTasks(e.defs, i1, env, SourceEnv(i1), |e.from|),
               ExprTasks(e.from, i2, 0) + DefTasks(e.defs, i2, other, SourceEnv(i2), |e.from|),
               DynTasks(e.dyn, i1), DynTasks(e.dyn, i2), true, env == other);
  }

  lemma {:induction false} LetTasksSame(e: Expr, env: StaticEnv, other: StaticEnv, slots: nat, otherSlots: nat)
    requires e.Let?
    ensures SameTasks(Tasks(e, env, slots), Tasks(e, other, otherSlots), true, env == other)
  {
    var i1, i2 := RecEnv(e.defs, env), RecEnv(e.defs, other);
    DefPartsSame(e.defs, e.from, i1, i2, env, other);
    SameAppend(ExprTasks(e.from, i1, 0) + DefTasks(e.defs, i1, env, SourceEnv(i1), |e.from|),
               ExprTasks(e.from, i2, 0) + DefTasks(e.defs, i2, other, SourceEnv(i2), |e.from|),
               [Task(e.body, i1, 0)], [Task(e.body, i2, 0)], true, env == other);
  }

  lemma {:induction false} DynTasksSame(dyn: seq<DynAttr>, i1: StaticEnv, i2: StaticEnv)
    ensures SameTasks(DynTasks(dyn, i1), DynTasks(dyn, i2), true, i1 == i2)
  {
    forall i | 0 <= i < |DynTasks(dyn, i1)|
      ensures DynTasks(dyn, i1)[i].slots == DynTasks(dyn, i2)[i].slots
    {
      assert i == 2 * (i / 2) || i == 2 * (i / 2) + 1;
      assert DynTasks(dyn, i1)[2 * (i / 2)].slots == DynTasks(dyn, i2)[2 * (i / 2)].slots;
    }
  }

  lemma {:induction false} DefPartsSame(
      defs: seq<AttrDef>, from: seq<Expr>, i1: StaticEnv, i2: StaticEnv, env: StaticEnv, other: StaticEnv)
    requires env == other ==> i1 == i2
    ensures SameTasks(ExprTasks(from, i1, 0) + DefTasks(defs, i1, env, SourceEnv(i1), |from|),
                      ExprTasks(from, i2, 0) + DefTasks(defs, i2, other, SourceEnv(i2), |from|), true, env == other)
  {
  }

  lemma {:induction false} DefaultTasksSame(formals: seq<Formal>, env: StaticEnv, other: StaticEnv)
    ensures |DefaultTasks(formals, env)| == |DefaultTasks(formals, other)|
    ensures forall i :: 0 <= i < |DefaultTasks(formals, env)| ==>
      && DefaultTasks(formals, env)[i].e == DefaultTasks(formals, other)[i].e
      && DefaultTasks(formals, env)[i].env == env
      && DefaultTasks(formals, env)[i].slots == DefaultTasks(formals, other)[i].slots == 0
  {
    if formals != [] {
      DefaultTasksSame(formals[1..], env, other);
      var ts, us := DefaultTasks(formals[1..], env), DefaultTasks(formals[1..], other);
      if formals[0].def.Some? {
        assert DefaultTasks(formals, env) == [Task(formals[0].def.value, env, 0)] + ts;
        assert DefaultTasks(formals, other) == [Task(formals[0].def.value, other, 0)] + us;
      } else {
        assert DefaultTasks(formals, env) == ts && DefaultTasks(formals, other) == us;
      }
    }
  }

  /* Node identities */

  ghost function OwnIds(e: Expr): set<NodeId> {
    match e
    case Var(id, _) => {id}
    case With(id, _, _) => {id}
    case _ => {}
  }

  ghost function Ids(e: Expr): set<NodeId>
    decreases e
  {
    OwnIds(e) + IdsOfAll(e, Tasks(e, NoEnv, 0))
  }

  ghost function IdsOfAll(parent: Expr, ts: seq<Task>): set<NodeId>
    requires forall t :: t in ts ==> t.e < parent
    decreases parent, |ts|
  {
    if ts == [] then {} else Ids(ts[0].e) + IdsOfAll(parent, ts[1..])
  }

  /** Every node occurs once: the parser allocates a fresh node for each occurrence. */
  ghost predicate Distinct(e: Expr)
    decreases e
  {
    OwnIds(e) !! IdsOfAll(e, Tasks(e, NoEnv, 0)) && DistinctAll(e, Tasks(e, NoEnv, 0))
  }

  ghost predicate DistinctAll(parent: Expr, ts: seq<Task>)
    requires forall t :: t in ts ==> t.e < parent
    decreases parent, |ts|
  {
    ts == [] ||
    (Distinct(ts[0].e) && Ids(ts[0].e) !! IdsOfAll(parent, ts[1..]) && DistinctAll(parent, ts[1..]))
  }

  /* What the parser guarantees */

  /** What `inherit (from)` makes of a name: a selection from a source. */
  predicate SelectsSource(d: AttrDef) {
    d.e.Select? && d.e.e.InheritFrom? && d.e.path == [d.name] && d.e.def.None?
  }

  /** Two names of one `inherit (from)`. */
  predicate SameSource(c: AttrDef, d: AttrDef) {
    && c.kind.InheritedFrom? && SelectsSource(c) && d.kind.InheritedFrom? && SelectsSource(d)
    && c.e.e.own == d.e.e.own
  }

  ghost predicate SharedNodes(defs: seq<AttrDef>) {
    forall c, d :: c in defs && d in defs && SameSource(c, d) ==> c.e.e.displ == d.e.e.displ
  }

  /** Definitions are ordered by symbol, one that inherits from a source selects from it, and
      all that were written with the same source share its node. */
  ghost predicate WfDefs(defs: seq<AttrDef>) {
    && (forall i, j :: 0 <= i < j < |defs| ==> defs[i].name < defs[j].name)
    && (forall i :: 0 <= i < |defs| && defs[i].kind.InheritedFrom? ==> SelectsSource(defs[i]))
    && SharedNodes(defs)
  }

  ghost predicate WfFormals(arg: Option<Symbol>, formals: Option<Formals>) {
    var fs := FormalsOf(formals);
    && (formals.None? ==> arg.Some?)
    && (forall i, j :: 0 <= i < j < |fs| ==> fs[i].name < fs[j].name)
    && (arg.Some? ==> forall i :: 0 <= i < |fs| ==> fs[i].name != arg.value)
  }

  ghost predicate WfNode(e: Expr, slots: nat, own: bool) {
    match e
    case InheritFrom(displ, source) => source < slots && source <= displ && (own ==> source == displ)
    case Attrs(_, defs, _, _) => WfDefs(defs)
    case Let(defs, _, _) => WfDefs(defs)
    case Lambda(arg, formals, _) => WfFormals(arg, formals)
    case _ => true
  }

  /** An expression the parser can produce. With `own`, every `inherit (from)` definition holds
      the index of its own source, which the parser does not always see to. */
  ghost predicate Wf(e: Expr, slots: nat, own: bool)
    decreases e
  {
    && WfNode(e, slots, own)
    && forall i :: 0 <= i < |Tasks(e, NoEnv, slots)| ==>
         Wf(Tasks(e, NoEnv, slots)[i].e, Tasks(e, NoEnv, slots)[i].slots, own)
  }

  /* The fields of a bound expression */

  /** The fields of a node are the ones its static environment dictates. */
  ghost predicate NodeNoted(e: Expr, env: StaticEnv, notes: Notes) {
    match e
    case Var(id, name) => id in notes.vars && Resolve(name, env) == Some(notes.vars[id])
    case With(id, _, _) => id in notes.withs && notes.withs[id] == WithInfoFor(env)
    case _ => true
  }

  ghost predicate Noted(e: Expr, env: StaticEnv, notes: Notes)
    decreases e
  {
    && NodeNoted(e, env, notes)
    && forall i :: 0 <= i < |Tasks(e, env, 0)| ==> Noted(Tasks(e, env, 0)[i].e, Tasks(e, env, 0)[i].env, notes)
  }

  ghost predicate AllNoted(parent: Expr, ts: seq<Task>, notes: Notes)
    requires forall t :: t in ts ==> t.e < parent
  {
    forall i :: 0 <= i < |ts| ==> Noted(ts[i].e, ts[i].env, notes)
  }

  /** An expression ready to be evaluated by index. */
  ghost predicate Fits(e: Expr, env: StaticEnv, slots: nat, notes: Notes)
    decreases e
  {
    && WfNode(e, slots, true) && NodeNoted(e, env, notes)
    && forall i :: 0 <= i < |Tasks(e, env, slots)| ==>
         var t := Tasks(e, env, slots)[i];
         Fits(t.e, t.env, t.slots, notes)
  }

  ghost predicate AgreeOn(ids: set<NodeId>, n: Notes, m: Notes) {
    forall id :: id in ids ==>
      && (id in n.vars <==> id in m.vars) && (id in n.vars ==> n.vars[id] == m.vars[id])
      && (id in n.withs <==> id in m.withs) && (id in n.withs ==> n.withs[id] == m.withs[id])
  }

  /** Only the given nodes were written. */
  ghost predicate WritesOnly(ids: set<NodeId>, n: Notes, m: Notes) {
    forall id :: id !in ids ==>
      && (id in n.vars <==> id in m.vars) && (id in n.vars ==> n.vars[id] == m.vars[id])
      && (id in n.withs <==> id in m.withs) && (id in n.withs ==> n.withs[id] == m.withs[id])
  }

  lemma {:induction false} IdsOfAllSame(parent: Expr, ts: seq<Task>, us: seq<Task>)
    requires forall t :: t in ts || t in us ==> t.e < parent
    requires |ts| == |us| && forall i :: 0 <= i < |ts| ==> ts[i].e == us[i].e
    ensures IdsOfAll(parent, ts) == IdsOfAll(parent, us)
    ensures DistinctAll(parent, ts) <==> DistinctAll(parent, us)
    decreases |ts|
  {
    if ts != [] {
      IdsOfAllSame(parent, ts[1..], us[1..]);
    }
  }

  /** The pass does not depend on how many slots of a frame are ready. */
  lemma {:induction false} BindAllSame(parent: Expr, ts: seq<Task>, us: seq<Task>, notes: Notes)
    requires forall t :: t in ts || t in us ==> t.e < parent
    requires |ts| == |us| && forall i :: 0 <= i < |ts| ==> ts[i].e == us[i].e && ts[i].env == us[i].env
    ensures BindAll(parent, ts, notes) == BindAll(parent, us, notes)
    decreases |ts|
  {
    if ts != [] {
      var first := Bind(ts[0].e, ts[0].env, notes);
      if first.Bound? {
        BindAllSame(parent, ts[1..], us[1..], first.notes);
      }
    }
  }

  lemma {:induction false} IdsOfMember(parent: Expr, ts: seq<Task>, i: nat)
    requires forall t :: t in ts ==> t.e < parent
    requires i < |ts|
    ensures Ids(ts[i].e) <= IdsOfAll(parent, ts)
    decreases |ts|
  {
    if i > 0 {
      IdsOfMember(parent, ts[1..], i - 1);
    }
  }

  lemma {:induction false} TaskIds(e: Expr, env: StaticEnv, slots: nat)
    ensures Ids(e) == OwnIds(e) + IdsOfAll(e, Tasks(e, env, slots))
    ensures Distinct(e) <==> OwnIds(e) !! IdsOfAll(e, Tasks(e, env, slots)) && DistinctAll(e, Tasks(e, env, slots))
  {
    TasksSame(e, NoEnv, env, 0, slots);
    IdsOfAllSame(e, Tasks(e, NoEnv, 0), Tasks(e, env, slots));
  }

  /** The fields of an expression are those of its own nodes. */
  lemma {:induction false} NotedLocal(e: Expr, env: StaticEnv, n: Notes, m: Notes)
    requires Noted(e, env, n) && AgreeOn(Ids(e), n, m)
    ensures Noted(e, env, m)
    decreases e
  {
    var ts := Tasks(e, env, 0);
    TaskIds(e, env, 0);
    forall i | 0 <= i < |ts|
      ensures Noted(ts[i].e, ts[i].env, m)
    {
      assert ts[i] in ts;
      IdsOfMember(e, ts, i);
      NotedLocal(ts[i].e, ts[i].env, n, m);
    }
  }

  /** With the right fields, an expression whose definitions hold their own sources is ready. */
  lemma {:induction false} NotedFits(e: Expr, env: StaticEnv, slots: nat, notes: Notes)
    requires Wf(e, slots, true) && Noted(e, env, notes)
    ensures Fits(e, env, slots, notes)
    decreases e
  {
    var ts, us := Tasks(e, env, slots), Tasks(e, env, 0);
    TasksSame(e, env, env, slots, 0);
    WfChildren(e, env, slots, true);
    forall i | 0 <= i < |ts|
      ensures Fits(ts[i].e, ts[i].env, ts[i].slots, notes)
    {
      assert ts[i] in ts;
      assert Noted(us[i].e, us[i].env, notes);
      NotedFits(ts[i].e, ts[i].env, ts[i].slots, notes);
    }
  }

  /** Below its own fields, a node is bound child by child. */
  lemma {:induction false} BindIsBindAll(e: Expr, env: StaticEnv, notes: Notes)
    requires !e.Var?
    ensures Bind(e, env, notes)
         == BindAll(e, Tasks(e, env, 0), if e.With? then notes.(withs := notes.withs[e.id := WithInfoFor(env)])
           else notes)
  {
  }

  lemma {:induction false} VarAnnotates(e: Expr, env: StaticEnv, notes: Notes)
    requires e.Var? && Bind(e, env, notes).Bound?
    ensures Noted(e, env, Bind(e, env, notes).notes)
    ensures WritesOnly(Ids(e), notes, Bind(e, env, notes).notes)
  {
    TaskIds(e, env, 0);
  }

  /** A node's own fields, written first, are not touched by binding its children. */
  lemma {:induction false} OwnFieldsKept(e: Expr, env: StaticEnv, start: Notes, end: Notes, ids: set<NodeId>)
    requires !e.Var? && OwnIds(e) !! ids && WritesOnly(ids, start, end)
    requires e.With? ==> e.id in start.withs && start.withs[e.id] == WithInfoFor(env)
    ensures NodeNoted(e, env, end)
  {
  }

  lemma {:induction false} WritesCompose(own: set<NodeId>, ids: set<NodeId>, n: Notes, m: Notes, o: Notes)
    requires WritesOnly(own, n, m) && WritesOnly(ids, m, o)
    ensures WritesOnly(own + ids, n, o)
  {
  }

  /** Well-formedness gives what the children in their scopes need. */
  lemma {:induction false} WfChildren(e: Expr, env: StaticEnv, slots: nat, own: bool)
    requires Wf(e, slots, own)
    ensures WfNode(e, slots, own)
    ensures forall i :: 0 <= i < |Tasks(e, env, slots)| ==>
      Wf(Tasks(e, env, slots)[i].e, Tasks(e, env, slots)[i].slots, own)
  {
    TasksSame(e, env, NoEnv, slots, slots);
  }

  /** A successful pass writes only the nodes of the expression, and leaves every
      one of them with the fields its static environment dictates. */
  lemma {:induction false} BindAnnotates(e: Expr, env: StaticEnv, notes: Notes)
    requires Distinct(e) && Bind(e, env, notes).Bound?
    ensures Noted(e, env, Bind(e, env, notes).notes)
    ensures WritesOnly(Ids(e), notes, Bind(e, env, notes).notes)
    decreases e, 1
  {
    if e.Var? {
      VarAnnotates(e, env, notes);
    } else {
      var start := if e.With? then notes.(withs := notes.withs[e.id := WithInfoFor(env)]) else notes;
      assert WritesOnly(OwnIds(e), notes, start);
      hide Noted, Bind, BindAll, Tasks, OwnIds, Ids, Distinct, IdsOfAll, DistinctAll, NodeNoted, WritesOnly, AllNoted;
      var ts := Tasks(e, env, 0);
      TaskIds(e, env, 0);
      BindIsBindAll(e, env, notes);
      BindAllAnnotates(e, ts, start);
      var end := Bind(e, env, notes).notes;
      OwnFieldsKept(e, env, start, end, IdsOfAll(e, ts));
      WritesCompose(OwnIds(e), IdsOfAll(e, ts), notes, start, end);
      NotedFromParts(e, env, end);
    }
  }

  lemma {:induction false} NotedFromParts(e: Expr, env: StaticEnv, notes: Notes)
    requires NodeNoted(e, env, notes) && AllNoted(e, Tasks(e, env, 0), notes)
    ensures Noted(e, env, notes)
  {
  }

  lemma {:induction false} BindAllAnnotates(parent: Expr, ts: seq<Task>, notes: Notes)
    requires forall t :: t in ts ==> t.e < parent
    requires DistinctAll(parent, ts)
    requires BindAll(parent, ts, notes).Bound?
    ensures AllNoted(parent, ts, BindAll(parent, ts, notes).notes)
    ensures WritesOnly(IdsOfAll(parent, ts), notes, BindAll(parent, ts, notes).notes)
    decreases parent, 0, |ts|
  {
    if ts != [] {
      assert ts[0] in ts;
      var mid := Bind(ts[0].e, ts[0].env, notes).notes;
      BindAnnotates(ts[0].e, ts[0].env, notes);
      BindAllAnnotates(parent, ts[1..], mid);
      NotedLocal(ts[0].e, ts[0].env, mid, BindAll(parent, ts, notes).notes);
      assert forall i :: 0 < i < |ts| ==> ts[i] == ts[1..][i - 1];
    }
  }

  /* The static frames stay sorted, so that `find` may search them by bisection */

  lemma {:induction false} LambdaEnvSorted(arg: Option<Symbol>, formals: Option<Formals>, env: StaticEnv)
    requires WfFormals(arg, formals) && SortedEnv(env)
    ensures SortedEnv(LambdaEnv(arg, formals, env))
  {
    SortSorted(LambdaSlots(arg, formals));
  }
}
