/** Every variable and `with` of the text becomes one node of the AST, whatever is merged. */
module Nodes {
  import opened Common
  import opened Syntax
  import opened Annotation
  import opened Parser
  import opened Merging

  /* The nodes of an expression, with their multiplicity */

  ghost function Bag(e: Expr): multiset<NodeId>
    decreases e, 1
  {
    match e
    case Var(id, _) => multiset{id}
    case Select(x, _, def) => Bag(x) + OptBag(def)
    case Attrs(_, defs, from, dyn) => ExprsBag(from) + DefsBag(defs) + DynsBag(dyn)
    case List(elems) => ExprsBag(elems)
    case Lambda(_, formals, body) =>
      (if formals.Some? then FormalsBag(formals.value.formals) else multiset{}) + Bag(body)
    case Call(fun, args) => Bag(fun) + ExprsBag(args)
    case Let(defs, from, body) => ExprsBag(from) + DefsBag(defs) + Bag(body)
    case With(id, attrs, body) => multiset{id} + Bag(attrs) + Bag(body)
    case If(cond, thn, els) => Bag(cond) + Bag(thn) + Bag(els)
    case _ => multiset{}
  }

  ghost function OptBag(e: Option<Expr>): multiset<NodeId> {
    if e.Some? then Bag(e.value) else multiset{}
  }

  ghost function ExprsBag(es: seq<Expr>): multiset<NodeId> {
    if es == [] then multiset{} else Bag(es[0]) + ExprsBag(es[1..])
  }

  ghost function DefBag(d: AttrDef): multiset<NodeId> {
    Bag(d.e)
  }

  ghost function DynBag(x: DynAttr): multiset<NodeId> {
    Bag(x.nameExpr) + Bag(x.valueExpr)
  }

  ghost function FormalBag(f: Formal): multiset<NodeId> {
    OptBag(f.def)
  }

  ghost function DefsBag(defs: seq<AttrDef>): multiset<NodeId> {
    if defs == [] then multiset{} else DefBag(defs[0]) + DefsBag(defs[1..])
  }

  ghost function DynsBag(dyn: seq<DynAttr>): multiset<NodeId> {
    if dyn == [] then multiset{} else DynBag(dyn[0]) + DynsBag(dyn[1..])
  }

  ghost function FormalsBag(fs: seq<Formal>): multiset<NodeId> {
    if fs == [] then multiset{} else FormalBag(fs[0]) + FormalsBag(fs[1..])
  }

  /* The nodes of the text */

  ghost function SynBag(s: Syn): multiset<NodeId>
    decreases s, 1
  {
    match s
    case SVar(id, _) => multiset{id}
    case SSelect(x, _, def) => SynBag(x) + OptSynBag(def)
    case SSet(_, binds) => BindsBag(binds)
    case SList(elems) => SynsBag(elems)
    case SLambda(PlainParam(_), body) => SynBag(body)
    case SLambda(SetParams(formals, _, _), body) => SynFormalsBag(formals) + SynBag(body)
    case SCall(fun, args) => SynBag(fun) + SynsBag(args)
    case SLet(binds, body) => BindsBag(binds) + SynBag(body)
    case SWith(id, attrs, body) => multiset{id} + SynBag(attrs) + SynBag(body)
    case SIf(cond, thn, els) => SynBag(cond) + SynBag(thn) + SynBag(els)
    case _ => multiset{}
  }

  ghost function OptSynBag(s: Option<Syn>): multiset<NodeId> {
    if s.Some? then SynBag(s.value) else multiset{}
  }

  ghost function SynsBag(ss: seq<Syn>): multiset<NodeId> {
    if ss == [] then multiset{} else SynBag(ss[0]) + SynsBag(ss[1..])
  }

  ghost function SynFormalBag(f: SynFormal): multiset<NodeId> {
    OptSynBag(f.def)
  }

  ghost function SynFormalsBag(fs: seq<SynFormal>): multiset<NodeId> {
    if fs == [] then multiset{} else SynFormalBag(fs[0]) + SynFormalsBag(fs[1..])
  }

  ghost function SynNameBag(n: Name<Syn>): multiset<NodeId> {
    if n.Dynamic? then SynBag(n.e) else multiset{}
  }

  ghost function SynNamesBag(path: seq<Name<Syn>>): multiset<NodeId> {
    if path == [] then multiset{} else SynNameBag(path[0]) + SynNamesBag(path[1..])
  }

  ghost function VarsBag(vars: seq<VarRef>): multiset<NodeId> {
    if vars == [] then multiset{} else multiset{vars[0].id} + VarsBag(vars[1..])
  }

  ghost function BindBag(b: Binding): multiset<NodeId> {
    match b
    case Define(prefix, last, x) => SynNamesBag(prefix) + SynNameBag(last) + SynBag(x)
    case Inherit(vars) => VarsBag(vars)
    case InheritFrom(x, _) => SynBag(x)
  }

  ghost function BindsBag(binds: seq<Binding>): multiset<NodeId> {
    if binds == [] then multiset{} else BindBag(binds[0]) + BindsBag(binds[1..])
  }

  /* Distinct nodes */

  ghost function TasksBag(ts: seq<Task>): multiset<NodeId> {
    if ts == [] then multiset{} else Bag(ts[0].e) + TasksBag(ts[1..])
  }

  lemma {:induction false} TasksBagAppend(ts: seq<Task>, us: seq<Task>)
    ensures TasksBag(ts + us) == TasksBag(ts) + TasksBag(us)
  {
    hide Bag;
    if ts == [] {
      assert ts + us == us;
    } else {
      TasksBagAppend(ts[1..], us);
      assert (ts + us)[1..] == ts[1..] + us;
    }
  }

  lemma {:induction false} ExprTasksBag(es: seq<Expr>, env: StaticEnv, slots: nat)
    ensures TasksBag(ExprTasks(es, env, slots)) == ExprsBag(es)
  {
    hide Bag;
    if es != [] {
      ExprTasksBag(es[1..], env, slots);
      assert ExprTasks(es, env, slots)[1..] == ExprTasks(es[1..], env, slots);
    }
  }

  lemma {:induction false} DefTasksBag(
      defs: seq<AttrDef>, plain: StaticEnv, env: StaticEnv, source: StaticEnv, slots: nat)
    ensures TasksBag(DefTasks(defs, plain, env, source, slots)) == DefsBag(defs)
  {
    hide Bag;
    if defs != [] {
      var ts, rest := DefTasks(defs, plain, env, source, slots), DefTasks(defs[1..], plain, env, source, slots);
      DefTasksBag(defs[1..], plain, env, source, slots);
      assert ts[1..] == rest by {
        hide DefTask;
        assert forall i :: 0 <= i < |rest| ==> ts[1..][i] == rest[i];
      }
      assert ts[0].e == defs[0].e;
    }
  }

  lemma {:induction false} DynTasksBag(dyn: seq<DynAttr>, env: StaticEnv)
    ensures TasksBag(DynTasks(dyn, env)) == DynsBag(dyn)
  {
    hide Bag;
    if dyn != [] {
      var first := [Task(dyn[0].nameExpr, env, 0)] + [Task(dyn[0].valueExpr, env, 0)];
      DynTasksFirst(dyn, env);
      hide DynTasks;
      DynTasksBag(dyn[1..], env);
      TasksBagAppend(first, DynTasks(dyn[1..], env));
      TasksBagAppend([Task(dyn[0].nameExpr, env, 0)], [Task(dyn[0].valueExpr, env, 0)]);
      TaskBag(Task(dyn[0].nameExpr, env, 0));
      TaskBag(Task(dyn[0].valueExpr, env, 0));
    }
  }

  lemma {:induction false} DynTasksFirst(dyn: seq<DynAttr>, env: StaticEnv)
    requires dyn != []
    ensures DynTasks(dyn, env) ==
      [Task(dyn[0].nameExpr, env, 0)] + [Task(dyn[0].valueExpr, env, 0)] + DynTasks(dyn[1..], env)
  {
    forall i: nat | i < |DynTasks(dyn[1..], env)|
      ensures DynTasks(dyn, env)[i + 2] == DynTasks(dyn[1..], env)[i]
    {
      DynTasksTail(dyn, env, i);
    }
    DynTaskAt(dyn, env, 0);
    DynTaskAt(dyn, env, 1);
    TwoFirst(DynTasks(dyn, env), DynTasks(dyn[1..], env));
  }

  lemma TwoFirst(ts: seq<Task>, rest: seq<Task>)
    requires |ts| == |rest| + 2 && forall i: nat :: i < |rest| ==> ts[i + 2] == rest[i]
    ensures ts == [ts[0]] + [ts[1]] + rest
  {
  }

  lemma {:induction false} DynTasksTail(dyn: seq<DynAttr>, env: StaticEnv, i: nat)
    requires dyn != [] && i < |DynTasks(dyn[1..], env)|
    ensures DynTasks(dyn, env)[i + 2] == DynTasks(dyn[1..], env)[i]
  {
    DynTaskAt(dyn, env, i + 2);
    DynTaskAt(dyn[1..], env, i);
  }

  lemma {:induction false} DynTaskAt(dyn: seq<DynAttr>, env: StaticEnv, i: nat)
    requires i < 2 * |dyn|
    ensures DynTasks(dyn, env)[i] == Task(if i % 2 == 0 then dyn[i / 2].nameExpr else dyn[i / 2].valueExpr, env, 0)
  {
  }

  lemma {:induction false} DefaultTasksBag(fs: seq<Formal>, env: StaticEnv)
    ensures TasksBag(DefaultTasks(fs, env)) == FormalsBag(fs)
  {
    hide Bag;
    if fs != [] {
      var rest := DefaultTasks(fs[1..], env);
      DefaultTasksBag(fs[1..], env);
      if fs[0].def.Some? {
        TaskBag(Task(fs[0].def.value, env, 0));
        TasksBagAppend([Task(fs[0].def.value, env, 0)], rest);
        assert DefaultTasks(fs, env) == [Task(fs[0].def.value, env, 0)] + rest;
        assert FormalBag(fs[0]) == Bag(fs[0].def.value);
      } else {
        assert DefaultTasks(fs, env) == rest && FormalBag(fs[0]) == multiset{};
      }
    }
  }

  lemma {:induction false} TaskBag(t: Task)
    ensures TasksBag([t]) == Bag(t.e)
  {
    hide Bag;
  }

  lemma {:induction false} DefPartsBag(
      defs: seq<AttrDef>, from: seq<Expr>, inner: StaticEnv, env: StaticEnv, rest: seq<Task>)
    ensures TasksBag(ExprTasks(from, inner, 0) + DefTasks(defs, inner, env, SourceEnv(inner), |from|) + rest)
         == ExprsBag(from) + DefsBag(defs) + TasksBag(rest)
  {
    hide Bag, TasksBag, ExprsBag, DefsBag;
    var a, b := ExprTasks(from, inner, 0), DefTasks(defs, inner, env, SourceEnv(inner), |from|);
    ExprTasksBag(from, inner, 0);
    DefTasksBag(defs, inner, env, SourceEnv(inner), |from|);
    TasksBagAppend(a, b);
    TasksBagAppend(a + b, rest);
  }

  lemma {:induction false} BagByTasks(e: Expr)
    ensures Bag(e) == multiset(OwnIds(e)) + TasksBag(Tasks(e, NoEnv, 0))
  {
    hide TasksBag, ExprsBag, DefsBag, DynsBag, FormalsBag, RecEnv, SourceEnv, LambdaEnv;
    match e
    case Attrs(recursive, defs, from, dyn) =>
      var inner := if recursive then RecEnv(defs, NoEnv) else NoEnv;
      DefPartsBag(defs, from, inner, NoEnv, DynTasks(dyn, inner));
      DynTasksBag(dyn, inner);
    case Let(defs, from, body) =>
      var inner := RecEnv(defs, NoEnv);
      DefPartsBag(defs, from, inner, NoEnv, [Task(body, inner, 0)]);
      TaskBag(Task(body, inner, 0));
    case Lambda(_, _, _) => LambdaBag(e);
    case _ => PlainBagByTasks(e);
  }

  lemma {:induction false} LambdaBag(e: Expr)
    requires e.Lambda?
    ensures Bag(e) == multiset(OwnIds(e)) + TasksBag(Tasks(e, NoEnv, 0))
  {
    hide TasksBag, LambdaEnv, DefaultTasks;
    var inner := LambdaEnv(e.arg, e.formals, NoEnv);
    DefaultTasksBag(FormalsOf(e.formals), inner);
    TaskBag(Task(e.body, inner, 0));
    TasksBagAppend(DefaultTasks(FormalsOf(e.formals), inner), [Task(e.body, inner, 0)]);
  }

  /** The nodes whose children all keep its environment. */
  lemma {:induction false} PlainBagByTasks(e: Expr)
    requires !e.Attrs? && !e.Let? && !e.Lambda?
    ensures Bag(e) == multiset(OwnIds(e)) + TasksBag(Tasks(e, NoEnv, 0))
  {
    assert TasksBag([]) == multiset{};
    hide ExprsBag, TasksBag;
    match e
    case List(elems) => ExprTasksBag(elems, NoEnv, 0);
    case Call(_, _) => CallBag(e);
    case Select(_, _, _) => SelectBag(e);
    case With(_, _, _) => WithBag(e);
    case If(_, _, _) => IfBag(e);
    case _ =>
  }

  lemma {:induction false} CallBag(e: Expr)
    requires e.Call?
    ensures Bag(e) == TasksBag(Tasks(e, NoEnv, 0))
  {
    hide ExprsBag, TasksBag;
    ExprTasksBag(e.args, NoEnv, 0);
    TaskBag(Task(e.fun, NoEnv, 0));
    TasksBagAppend([Task(e.fun, NoEnv, 0)], ExprTasks(e.args, NoEnv, 0));
  }

  lemma {:induction false} SelectBag(e: Expr)
    requires e.Select?
    ensures Bag(e) == TasksBag(Tasks(e, NoEnv, 0))
  {
    TaskBag(Task(e.e, NoEnv, 0));
    TasksBagAppend([Task(e.e, NoEnv, 0)], OptTask(e.def, NoEnv, 0));
    if e.def.Some? {
      TaskBag(Task(e.def.value, NoEnv, 0));
    }
  }

  lemma {:induction false} WithBag(e: Expr)
    requires e.With?
    ensures Bag(e) == multiset{e.id} + TasksBag(Tasks(e, NoEnv, 0))
  {
    hide TasksBag;
    var a, b := Task(e.attrs, NoEnv, 0), Task(e.body, StaticEnv(Some(e.id), [], NoEnv), 0);
    assert Tasks(e, NoEnv, 0) == [a] + [b];
    TaskBag(a);
    TaskBag(b);
    TasksBagAppend([a], [b]);
  }

  lemma {:induction false} IfBag(e: Expr)
    requires e.If?
    ensures Bag(e) == TasksBag(Tasks(e, NoEnv, 0))
  {
    hide TasksBag;
    var a, b, c := Task(e.cond, NoEnv, 0), Task(e.thn, NoEnv, 0), Task(e.els, NoEnv, 0);
    assert Tasks(e, NoEnv, 0) == [a] + [b] + [c];
    TaskBag(a);
    TaskBag(b);
    TaskBag(c);
    TasksBagAppend([a], [b]);
    TasksBagAppend([a] + [b], [c]);
  }

  /** No node occurs twice. */
  ghost predicate Once(bag: multiset<NodeId>) {
    forall id :: bag[id] <= 1
  }

  lemma {:induction false} BagIds(e: Expr)
    ensures forall id :: id in Ids(e) <==> id in Bag(e)
    decreases e, 1
  {
    BagByTasks(e);
    TasksBagIds(e, Tasks(e, NoEnv, 0));
  }

  lemma {:induction false} TasksBagIds(parent: Expr, ts: seq<Task>)
    requires forall t :: t in ts ==> t.e < parent
    ensures forall id :: id in IdsOfAll(parent, ts) <==> id in TasksBag(ts)
    decreases parent, 0, |ts|
  {
    if ts != [] {
      assert ts[0] in ts;
      BagIds(ts[0].e);
      TasksBagIds(parent, ts[1..]);
    }
  }

  lemma {:induction false} OnceDistinct(e: Expr)
    requires Once(Bag(e))
    ensures Distinct(e)
    decreases e, 1
  {
    var ts := Tasks(e, NoEnv, 0);
    BagByTasks(e);
    TasksBagIds(e, ts);
    assert forall id :: Bag(e)[id] >= multiset(OwnIds(e))[id] + TasksBag(ts)[id];
    OnceDistinctAll(e, ts);
  }

  lemma {:induction false} DisjointBags(e: Expr, parent: Expr, ts: seq<Task>)
    requires forall t :: t in ts ==> t.e < parent
    requires forall id :: Bag(e)[id] + TasksBag(ts)[id] <= 1
    ensures Ids(e) !! IdsOfAll(parent, ts)
  {
    hide Bag, TasksBag, Ids, IdsOfAll;
    BagIds(e);
    TasksBagIds(parent, ts);
  }

  lemma {:induction false} OnceDistinctAll(parent: Expr, ts: seq<Task>)
    requires forall t :: t in ts ==> t.e < parent
    requires Once(TasksBag(ts))
    ensures DistinctAll(parent, ts)
    decreases parent, 0, |ts|
  {
    hide Bag, Ids, Distinct;
    if ts != [] {
      assert ts[0] in ts;
      var a, b := Bag(ts[0].e), TasksBag(ts[1..]);
      assert forall id :: TasksBag(ts)[id] == a[id] + b[id];
      OnceDistinct(ts[0].e);
      OnceDistinctAll(parent, ts[1..]);
      DisjointBags(ts[0].e, parent, ts[1..]);
    }
  }

  /* Merging moves nodes, it makes and drops none */

  lemma {:induction false} InsertBag(defs: seq<AttrDef>, d: AttrDef)
    ensures DefsBag(Insert(defs, d)) == DefsBag(defs) + Bag(d.e)
  {
    hide Bag;
    if defs == [] || d.name < defs[0].name {
      assert ([d] + defs)[1..] == defs;
    } else {
      InsertBag(defs[1..], d);
      assert ([defs[0]] + Insert(defs[1..], d))[1..] == Insert(defs[1..], d);
    }
  }

  /** Definition `j` with `more` nodes. */
  lemma {:induction false} ReplaceBag(defs: seq<AttrDef>, j: nat, d: AttrDef, more: multiset<NodeId>)
    requires j < |defs| && Bag(d.e) == Bag(defs[j].e) + more
    ensures DefsBag(defs[j := d]) == DefsBag(defs) + more
  {
    hide Bag;
    if j == 0 {
      assert defs[j := d][1..] == defs[1..];
    } else {
      ReplaceBag(defs[1..], j - 1, d, more);
      assert defs[j := d][1..] == defs[1..][j - 1 := d];
    }
  }

  lemma {:induction false} ExprsBagAppend(es: seq<Expr>, xs: seq<Expr>)
    ensures ExprsBag(es + xs) == ExprsBag(es) + ExprsBag(xs)
  {
    hide Bag;
    if es == [] {
      assert es + xs == xs;
    } else {
      ExprsBagAppend(es[1..], xs);
      assert (es + xs)[1..] == es[1..] + xs;
    }
  }

  lemma {:induction false} DynsBagAppend(xs: seq<DynAttr>, ys: seq<DynAttr>)
    ensures DynsBag(xs + ys) == DynsBag(xs) + DynsBag(ys)
  {
    hide Bag;
    if xs == [] {
      assert xs + ys == ys;
    } else {
      DynsBagAppend(xs[1..], ys);
      assert (xs + ys)[1..] == xs[1..] + ys;
    }
  }

  lemma {:induction false} AttrsBag(e: Expr)
    requires e.Attrs?
    ensures Bag(e) == ExprsBag(e.from) + DefsBag(e.defs) + DynsBag(e.dyn)
  {
  }

  lemma {:induction false} AddNewBag(acc: Expr, d: AttrDef)
    requires acc.Attrs? && AddNew(acc, d).Parsed?
    ensures Bag(AddNew(acc, d).value) == Bag(acc) + Bag(d.e)
    ensures DefsBag(AddNew(acc, d).value.defs) == DefsBag(acc.defs) + Bag(d.e)
    ensures AddNew(acc, d).value == WithDefs(acc, AddNew(acc, d).value.defs)
  {
    hide Bag;
    var r := AddNew(acc, d).value;
    InsertBag(acc.defs, d);
    AttrsBag(acc);
    AttrsBag(r);
  }

  lemma {:induction false} SetDefBag(acc: Expr, j: nat, e: Expr, more: multiset<NodeId>)
    requires acc.Attrs? && j < |acc.defs| && Bag(e) == Bag(acc.defs[j].e) + more
    ensures Bag(SetDef(acc, j, e)) == Bag(acc) + more
    ensures DefsBag(SetDef(acc, j, e).defs) == DefsBag(acc.defs) + more
  {
    hide Bag;
    ReplaceBag(acc.defs, j, acc.defs[j].(e := e), more);
    AttrsBag(acc);
    AttrsBag(SetDef(acc, j, e));
  }

  lemma {:induction false} AddDefBag(acc: Expr, d: AttrDef)
    requires acc.Attrs? && AddDef(acc, d).Parsed?
    ensures Bag(AddDef(acc, d).value) == Bag(acc) + Bag(d.e)
    ensures DefsBag(AddDef(acc, d).value.defs) == DefsBag(acc.defs) + Bag(d.e)
    ensures AddDef(acc, d).value == WithDefs(acc, AddDef(acc, d).value.defs)
    decreases d.e, 1, 0
  {
    hide Bag;
    var j := Find(acc.defs, d.name);
    if j.Some? && d.e.Attrs? && acc.defs[j.value].e.Attrs? {
      MergeBag(acc.defs[j.value].e, d.e);
      SetDefBag(acc, j.value, Merge(acc.defs[j.value].e, d.e).value, Bag(d.e));
    } else {
      AddNewBag(acc, d);
    }
  }

  lemma {:induction false} MergeBag(acc: Expr, other: Expr)
    requires acc.Attrs? && other.Attrs? && Merge(acc, other).Parsed?
    ensures Bag(Merge(acc, other).value) == Bag(acc) + Bag(other)
    decreases other, 0, |other.defs| + 1
  {
    hide Bag;
    var r, m := MergeDefs(acc, other, 0).value, Merge(acc, other).value;
    MergeDefsBag(acc, other, 0);
    ExprsBagAppend(acc.from, other.from);
    DynsBagAppend(acc.dyn, other.dyn);
    AttrsBag(acc);
    AttrsBag(other);
    AttrsBag(r);
    AttrsBag(m);
    assert m.defs == r.defs && r.from == acc.from && r.dyn == acc.dyn;
    assert other.defs[0..] == other.defs;
  }

  lemma {:induction false} MergeDefsBag(acc: Expr, other: Expr, i: nat)
    requires acc.Attrs? && other.Attrs? && i <= |other.defs| && MergeDefs(acc, other, i).Parsed?
    ensures DefsBag(MergeDefs(acc, other, i).value.defs) == DefsBag(acc.defs) + DefsBag(other.defs[i..])
    ensures MergeDefs(acc, other, i).value == WithDefs(acc, MergeDefs(acc, other, i).value.defs)
    decreases other, 0, |other.defs| - i
  {
    hide Bag;
    if i < |other.defs| {
      MergeDefBag(acc, other, i);
      MergeDefsBag(MergeDef(acc, other, i).value, other, i + 1);
      assert other.defs[i..][1..] == other.defs[i + 1..];
    }
  }

  lemma {:induction false} MovedBag(defs: seq<AttrDef>, d: AttrDef, n: nat)
    ensures Bag(Moved(defs, d, n).e) == Bag(d.e)
  {
  }

  lemma {:induction false} MergeDefBag(acc: Expr, other: Expr, i: nat)
    requires acc.Attrs? && other.Attrs? && i < |other.defs| && MergeDef(acc, other, i).Parsed?
    ensures DefsBag(MergeDef(acc, other, i).value.defs) == DefsBag(acc.defs) + Bag(other.defs[i].e)
    ensures MergeDef(acc, other, i).value == WithDefs(acc, MergeDef(acc, other, i).value.defs)
    decreases other, 0, 0
  {
    hide Bag;
    var d := other.defs[i];
    if d.kind.InheritedFrom? {
      MovedBag(other.defs, d, |acc.from|);
      AddNewBag(acc, Moved(other.defs, d, |acc.from|));
    } else {
      AddDefBag(acc, d);
    }
  }

  /* Bindings */

  ghost function NameBag(n: Name<Expr>): multiset<NodeId> {
    if n.Dynamic? then Bag(n.e) else multiset{}
  }

  ghost function NamesBag(path: seq<Name<Expr>>): multiset<NodeId> {
    if path == [] then multiset{} else NameBag(path[0]) + NamesBag(path[1..])
  }

  lemma {:induction false} WithDynBag(acc: Expr, x: Expr, e: Expr)
    requires acc.Attrs?
    ensures Bag(WithDyn(acc, acc.dyn + [DynAttr(x, e)])) == Bag(acc) + Bag(x) + Bag(e)
  {
    hide Bag;
    var one := [DynAttr(x, e)];
    DynsBagAppend(acc.dyn, one);
    AttrsBag(acc);
    AttrsBag(WithDyn(acc, acc.dyn + one));
    assert one[1..] == [];
    assert DynsBag(one) == Bag(x) + Bag(e);
  }

  lemma {:induction false} AddPathBag(acc: Expr, prefix: seq<Name<Expr>>, last: Name<Expr>, e: Expr)
    requires acc.Attrs? && AddPath(acc, prefix, last, e).Parsed?
    ensures Bag(AddPath(acc, prefix, last, e).value) == Bag(acc) + NamesBag(prefix) + NameBag(last) + Bag(e)
    decreases |prefix|, 0
  {
    hide Bag, DefsBag, AddPath, NameBag;
    if prefix == [] {
      AddLastBag(acc, last, e);
    } else if prefix[0].Static? && Find(acc.defs, prefix[0].name).Some? {
      EnteredBag(acc, prefix, last, e);
    } else {
      NestedBag(acc, prefix, last, e);
    }
  }

  lemma {:induction false} AddLastBag(acc: Expr, last: Name<Expr>, e: Expr)
    requires acc.Attrs? && AddPath(acc, [], last, e).Parsed?
    ensures Bag(AddPath(acc, [], last, e).value) == Bag(acc) + NameBag(last) + Bag(e)
  {
    hide Bag, DefsBag;
    match last
    case Static(name) => AddDefBag(acc, AttrDef(name, Plain, e));
    case Dynamic(x) => WithDynBag(acc, x, e);
  }

  /** The path goes through a set that is made for it. */
  lemma {:induction false} NestedBag(acc: Expr, prefix: seq<Name<Expr>>, last: Name<Expr>, e: Expr)
    requires prefix != [] && acc.Attrs? && (prefix[0].Static? ==> Find(acc.defs, prefix[0].name).None?)
    requires AddPath(acc, prefix, last, e).Parsed?
    ensures Bag(AddPath(acc, prefix, last, e).value) == Bag(acc) + NamesBag(prefix) + NameBag(last) + Bag(e)
    decreases |prefix| - 1, 1
  {
    EmptyBag(false);
    hide Bag, DefsBag;
    var nested := AddPath(EMPTY_SET, prefix[1..], last, e).value;
    AddPathBag(EMPTY_SET, prefix[1..], last, e);
    match prefix[0]
    case Static(name) => AddNewBag(acc, AttrDef(name, Plain, nested));
    case Dynamic(x) => WithDynBag(acc, x, nested);
  }

  /** The path goes through a set that is there. */
  lemma {:induction false} EnteredBag(acc: Expr, prefix: seq<Name<Expr>>, last: Name<Expr>, e: Expr)
    requires prefix != [] && prefix[0].Static? && acc.Attrs? && Find(acc.defs, prefix[0].name).Some?
    requires AddPath(acc, prefix, last, e).Parsed?
    ensures Bag(AddPath(acc, prefix, last, e).value) == Bag(acc) + NamesBag(prefix) + NameBag(last) + Bag(e)
    decreases |prefix| - 1, 1
  {
    hide Bag, DefsBag;
    var j := Find(acc.defs, prefix[0].name).value;
    AddPathBag(acc.defs[j].e, prefix[1..], last, e);
    SetDefBag(acc, j, AddPath(acc.defs[j].e, prefix[1..], last, e).value,
              NamesBag(prefix[1..]) + NameBag(last) + Bag(e));
  }

  lemma {:induction false} EmptyBag(recursive: bool)
    ensures Bag(Attrs(recursive, [], [], [])) == multiset{}
  {
  }

  lemma {:induction false} AddInheritedBag(acc: Expr, vars: seq<VarRef>)
    requires acc.Attrs? && AddInherited(acc, vars).Parsed?
    ensures Bag(AddInherited(acc, vars).value) == Bag(acc) + VarsBag(vars)
    decreases |vars|
  {
    if vars != [] {
      var d := AttrDef(vars[0].name, Inherited, Var(vars[0].id, vars[0].name));
      assert Bag(d.e) == multiset{vars[0].id};
      hide Bag;
      AddNewBag(acc, d);
      AddInheritedBag(AddNew(acc, d).value, vars[1..]);
    }
  }

  lemma {:induction false} AddFromBag(acc: Expr, source: nat, names: seq<Symbol>)
    requires acc.Attrs? && AddFrom(acc, source, names).Parsed?
    ensures Bag(AddFrom(acc, source, names).value) == Bag(acc)
    decreases |names|
  {
    if names != [] {
      var d := AttrDef(names[0], InheritedFrom, Select(Expr.InheritFrom(source, source), [names[0]], None));
      assert Bag(d.e) == multiset{};
      hide Bag;
      AddNewBag(acc, d);
      AddFromBag(AddNew(acc, d).value, source, names[1..]);
    }
  }

  lemma {:induction false} NewSourceBag(acc: Expr, e: Expr)
    requires acc.Attrs?
    ensures Bag(WithFrom(acc, acc.from + [e])) == Bag(acc) + Bag(e)
  {
    hide Bag;
    ExprsBagAppend(acc.from, [e]);
    AttrsBag(acc);
    AttrsBag(WithFrom(acc, acc.from + [e]));
    assert [e][1..] == [] && ExprsBag([e]) == Bag(e);
  }

  /* Formals */

  lemma {:induction false} InsertFormalBag(fs: seq<Formal>, f: Formal)
    ensures FormalsBag(InsertFormal(fs, f)) == FormalsBag(fs) + FormalBag(f)
  {
    hide FormalBag;
    if fs == [] || f.name < fs[0].name {
      assert ([f] + fs)[1..] == fs;
    } else {
      InsertFormalBag(fs[1..], f);
      assert ([fs[0]] + InsertFormal(fs[1..], f))[1..] == InsertFormal(fs[1..], f);
    }
  }

  lemma {:induction false} FormalsBagSnoc(fs: seq<Formal>, f: Formal)
    ensures FormalsBag(fs + [f]) == FormalsBag(fs) + FormalBag(f)
  {
    hide FormalBag;
    if fs != [] {
      FormalsBagSnoc(fs[1..], f);
      assert (fs + [f])[1..] == fs[1..] + [f];
    }
  }

  lemma {:induction false} SortFormalsBag(fs: seq<Formal>)
    ensures FormalsBag(SortFormals(fs)) == FormalsBag(fs)
  {
    hide FormalBag;
    if fs != [] {
      var init, last := fs[..|fs| - 1], fs[|fs| - 1];
      SortFormalsBag(init);
      InsertFormalBag(SortFormals(init), last);
      FormalsBagSnoc(init, last);
      assert fs == init + [last];
    }
  }

  /* Expressions */

  lemma {:induction false} ShortBag(es: seq<Expr>)
    ensures |es| == 1 ==> ExprsBag(es) == Bag(es[0])
    ensures |es| == 2 ==> ExprsBag(es) == Bag(es[0]) + Bag(es[1])
    ensures |es| == 3 ==> ExprsBag(es) == Bag(es[0]) + Bag(es[1]) + Bag(es[2])
  {
    hide Bag;
    if es != [] {
      ShortBag(es[1..]);
    }
  }

  lemma {:induction false} ShortSynBag(ss: seq<Syn>)
    ensures |ss| == 1 ==> SynsBag(ss) == SynBag(ss[0])
    ensures |ss| == 2 ==> SynsBag(ss) == SynBag(ss[0]) + SynBag(ss[1])
    ensures |ss| == 3 ==> SynsBag(ss) == SynBag(ss[0]) + SynBag(ss[1]) + SynBag(ss[2])
  {
    hide SynBag;
    if ss != [] {
      ShortSynBag(ss[1..]);
    }
  }

  /** Every node of the text is a node of the expression, as often, and there are no others. */
  lemma {:induction false} ParseBag(s: Syn)
    requires Parse(s).Parsed?
    ensures Bag(Parse(s).value) == SynBag(s)
    decreases s, 1, 0
  {
    hide Bag, SynBag;
    match s
    case SSet(recursive, binds) =>
      EmptyBag(recursive);
      ParseBindsBag(s, binds, Attrs(recursive, [], [], []));
      SetBag(s);
    case SLambda(params, body) =>
      ParseBag(body);
      if params.SetParams? {
        ParseFormalsBag(s, params.formals);
      }
      LambdaSynBag(s);
    case SLet(binds, body) =>
      EmptyBag(false);
      ParseBindsBag(s, binds, EMPTY_SET);
      ParseBag(body);
      LetBag(s);
    case _ =>
      ParseAllBag(s, Parts(s));
      PartsBag(s);
  }

  lemma {:induction false} PartsBag(s: Syn)
    requires !s.SSet? && !s.SLambda? && !s.SLet? && Parse(s).Parsed? && ParseAll(s, Parts(s)).Parsed?
    requires ExprsBag(ParseAll(s, Parts(s)).value) == SynsBag(Parts(s))
    ensures Bag(Parse(s).value) == SynBag(s)
  {
    var e, es := Parse(s).value, ParseAll(s, Parts(s)).value;
    hide Bag, SynBag, ExprsBag, SynsBag, HasParts, Parse, ParseAll, Parts;
    ParsedParts(s);
    PartsOfNode(e, es);
    PartsOfSyn(s);
  }

  lemma {:induction false} PartsOfNode(e: Expr, es: seq<Expr>)
    requires HasParts(e, es)
    ensures Bag(e) == multiset(OwnIds(e)) + ExprsBag(es)
  {
    match e
    case Call(_, args) => assert es[1..] == args;
    case List(_) =>
    case Select(_, _, _) => ShortPartsOfNode(e, es);
    case With(_, _, _) => ShortPartsOfNode(e, es);
    case If(_, _, _) => ShortPartsOfNode(e, es);
    case _ => NoExprsBag();
  }

  lemma {:induction false} ShortPartsOfNode(e: Expr, es: seq<Expr>)
    requires HasParts(e, es) && (e.Select? || e.With? || e.If?)
    ensures Bag(e) == multiset(OwnIds(e)) + ExprsBag(es)
  {
    hide ExprsBag;
    ShortBag(es);
  }

  lemma {:induction false} NoExprsBag()
    ensures ExprsBag([]) == multiset{} && SynsBag([]) == multiset{}
  {
  }

  lemma {:induction false} PartsOfSyn(s: Syn)
    requires !s.SSet? && !s.SLambda? && !s.SLet?
    ensures SynBag(s) == SynsBag(Parts(s)) + if s.SVar? || s.SWith? then multiset{s.id} else multiset{}
  {
    match s
    case SCall(_, args) => assert Parts(s)[1..] == args;
    case SList(_) =>
    case SSelect(_, _, _) => ShortPartsOfSyn(s);
    case SWith(_, _, _) => ShortPartsOfSyn(s);
    case SIf(_, _, _) => ShortPartsOfSyn(s);
    case _ => NoExprsBag();
  }

  lemma {:induction false} ShortPartsOfSyn(s: Syn)
    requires s.SSelect? || s.SWith? || s.SIf?
    ensures SynBag(s) == SynsBag(Parts(s)) + if s.SWith? then multiset{s.id} else multiset{}
  {
    hide SynsBag;
    ShortSynBag(Parts(s));
  }

  lemma {:induction false} SetBag(s: Syn)
    requires s.SSet? && Parse(s).Parsed?
    requires Bag(Parse(s).value) == BindsBag(s.binds)
    ensures Bag(Parse(s).value) == SynBag(s)
  {
    hide Bag;
  }

  lemma {:induction false} LambdaSynBag(s: Syn)
    requires s.SLambda? && Parse(s).Parsed?
    requires Bag(Parse(s.body).value) == SynBag(s.body)
    requires s.params.SetParams? ==>
      FormalsBag(ParseFormals(s, s.params.formals).value) == SynFormalsBag(s.params.formals)
    ensures Bag(Parse(s).value) == SynBag(s)
  {
    LambdaIs(s);
    hide *;
    LambdaBags(Parse(s).value, s);
    if s.params.SetParams? {
      SortFormalsBag(ParseFormals(s, s.params.formals).value);
    }
  }

  lemma {:induction false} LambdaIs(s: Syn)
    requires s.SLambda? && Parse(s).Parsed?
    ensures var e := Parse(s).value;
      && e.Lambda? && e.body == Parse(s.body).value && (e.formals.Some? <==> s.params.SetParams?)
      && (s.params.SetParams? ==>
            e.formals.value.formals == SortFormals(ParseFormals(s, s.params.formals).value))
  {
  }

  lemma {:induction false} LambdaBags(e: Expr, s: Syn)
    requires e.Lambda? && s.SLambda?
    ensures Bag(e) == (if e.formals.Some? then FormalsBag(e.formals.value.formals) else multiset{}) + Bag(e.body)
    ensures SynBag(s) ==
      (if s.params.SetParams? then SynFormalsBag(s.params.formals) else multiset{}) + SynBag(s.body)
  {
    hide FormalsBag, SynFormalsBag;
  }

  lemma {:induction false} LetBag(s: Syn)
    requires s.SLet? && Parse(s).Parsed?
    requires Bag(ParseBinds(s, s.binds, EMPTY_SET).value) == BindsBag(s.binds)
    requires Bag(Parse(s.body).value) == SynBag(s.body)
    ensures Bag(Parse(s).value) == SynBag(s)
  {
    var acc, e := ParseBinds(s, s.binds, EMPTY_SET).value, Parse(s).value;
    LetIs(s);
    assert DynsBag([]) == multiset{};
    hide *;
    AttrsBag(acc);
    LetBags(e, s);
  }

  lemma {:induction false} LetIs(s: Syn)
    requires s.SLet? && Parse(s).Parsed?
    ensures var acc := ParseBinds(s, s.binds, EMPTY_SET).value;
      Parse(s).value == Let(acc.defs, acc.from, Parse(s.body).value) && acc.dyn == []
  {
  }

  lemma {:induction false} LetBags(e: Expr, s: Syn)
    requires e.Let? && s.SLet?
    ensures Bag(e) == ExprsBag(e.from) + DefsBag(e.defs) + Bag(e.body)
    ensures SynBag(s) == BindsBag(s.binds) + SynBag(s.body)
  {
    hide ExprsBag, DefsBag, BindsBag;
  }

  lemma {:induction false} ParseAllBag(parent: Syn, ss: seq<Syn>)
    requires forall x :: x in ss ==> x < parent
    requires ParseAll(parent, ss).Parsed?
    ensures ExprsBag(ParseAll(parent, ss).value) == SynsBag(ss)
    decreases parent, 0, |ss|
  {
    hide Bag, SynBag;
    if ss != [] {
      assert ss[0] in ss && forall x :: x in ss[1..] ==> x in ss;
      ParseBag(ss[0]);
      ParseAllBag(parent, ss[1..]);
      var first, rest := Parse(ss[0]).value, ParseAll(parent, ss[1..]).value;
      assert ([first] + rest)[1..] == rest;
    }
  }

  lemma {:induction false} ParseFormalsBag(parent: Syn, formals: seq<SynFormal>)
    requires forall f :: f in formals && f.def.Some? ==> f.def.value < parent
    requires ParseFormals(parent, formals).Parsed?
    ensures FormalsBag(ParseFormals(parent, formals).value) == SynFormalsBag(formals)
    decreases parent, 0, |formals|
  {
    hide Bag, SynBag;
    if formals != [] {
      assert formals[0] in formals && forall f :: f in formals[1..] ==> f in formals;
      ParseFormalsBag(parent, formals[1..]);
      if formals[0].def.Some? {
        ParseBag(formals[0].def.value);
      }
      var fs, rest := ParseFormals(parent, formals).value, ParseFormals(parent, formals[1..]).value;
      assert fs[1..] == rest && FormalBag(fs[0]) == SynFormalBag(formals[0]);
    }
  }

  lemma {:induction false} ParseNameBag(n: Name<Syn>)
    requires ParseName(n).Parsed?
    ensures NameBag(ParseName(n).value) == SynNameBag(n)
    decreases n, 2, 0
  {
    if n.Dynamic? {
      ParseBag(n.e);
    }
  }

  lemma {:induction false} ParseNamesBag(parent: Binding, path: seq<Name<Syn>>)
    requires forall n :: n in path ==> n < parent
    requires ParseNames(parent, path).Parsed?
    ensures NamesBag(ParseNames(parent, path).value) == SynNamesBag(path)
    decreases parent, 0, |path|
  {
    hide NameBag, SynNameBag;
    if path != [] {
      assert path[0] in path && forall n :: n in path[1..] ==> n in path;
      ParseNameBag(path[0]);
      ParseNamesBag(parent, path[1..]);
      var first, rest := ParseName(path[0]).value, ParseNames(parent, path[1..]).value;
      assert ([first] + rest)[1..] == rest;
    }
  }

  lemma {:induction false} ParseBindBag(b: Binding, acc: Expr)
    requires acc.Attrs? && ParseBind(b, acc).Parsed?
    ensures Bag(ParseBind(b, acc).value) == Bag(acc) + BindBag(b)
    decreases b, 2, 0
  {
    hide Bag, SynBag;
    match b
    case Define(prefix, last, x) =>
      ParseNamesBag(b, prefix);
      ParseNameBag(last);
      ParseBag(x);
      AddPathBag(acc, ParseNames(b, prefix).value, ParseName(last).value, Parse(x).value);
    case Inherit(vars) => AddInheritedBag(acc, vars);
    case InheritFrom(x, names) =>
      ParseBag(x);
      NewSourceBag(acc, Parse(x).value);
      AddFromBag(WithFrom(acc, acc.from + [Parse(x).value]), |acc.from|, names);
  }

  lemma {:induction false} ParseBindsBag(parent: Syn, binds: seq<Binding>, acc: Expr)
    requires acc.Attrs? && forall b :: b in binds ==> b < parent
    requires ParseBinds(parent, binds, acc).Parsed?
    ensures Bag(ParseBinds(parent, binds, acc).value) == Bag(acc) + BindsBag(binds)
    decreases parent, 0, |binds|
  {
    hide Bag, BindBag;
    if binds != [] {
      assert binds[0] in binds && forall b :: b in binds[1..] ==> b in binds;
      ParseBindBag(binds[0], acc);
      ParseBindsBag(parent, binds[1..], ParseBind(binds[0], acc).value);
    }
  }

  /** If no node of the text is written twice, none is in the expression. */
  lemma {:induction false} ParsedDistinct(s: Syn)
    requires Parse(s).Parsed? && Once(SynBag(s))
    ensures Distinct(Parse(s).value)
  {
    ParseBag(s);
    OnceDistinct(Parse(s).value);
  }
}
