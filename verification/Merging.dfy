/** What the parser guarantees of the expressions it builds, and which source an
    `inherit (from)` definition reads after merges. */
module Merging {
  import opened Common
  import opened Syntax
  import opened Annotation
  import opened Parser

  /* A set, part by part */

  ghost predicate Ordered(defs: seq<AttrDef>) {
    forall i, j :: 0 <= i < j < |defs| ==> defs[i].name < defs[j].name
  }

  ghost predicate DefWf(d: AttrDef, slots: nat, own: bool) {
    if d.kind.InheritedFrom? then SelectsSource(d) && WfNode(d.e.e, slots, own) else Wf(d.e, 0, own)
  }

  ghost predicate DefsWf(defs: seq<AttrDef>, slots: nat, own: bool) {
    forall d :: d in defs ==> DefWf(d, slots, own)
  }

  ghost predicate ExprsWf(es: seq<Expr>, own: bool) {
    forall x :: x in es ==> Wf(x, 0, own)
  }

  ghost predicate DynsWf(dyn: seq<DynAttr>, own: bool) {
    forall x :: x in dyn ==> Wf(x.nameExpr, 0, own) && Wf(x.valueExpr, 0, own)
  }

  ghost predicate SetWf(e: Expr, own: bool)
    requires e.Attrs?
  {
    WfDefs(e.defs) && DefsWf(e.defs, |e.from|, own) && ExprsWf(e.from, own) && DynsWf(e.dyn, own)
  }

  ghost predicate TasksWf(ts: seq<Task>, own: bool) {
    forall t :: t in ts ==> Wf(t.e, t.slots, own)
  }

  lemma {:induction false} WfByTasks(e: Expr, slots: nat, own: bool)
    ensures Wf(e, slots, own) <==> WfNode(e, slots, own) && TasksWf(Tasks(e, NoEnv, slots), own)
  {
    var ts := Tasks(e, NoEnv, slots);
    assert forall t :: t in ts <==> exists i :: 0 <= i < |ts| && ts[i] == t;
  }

  lemma {:induction false} TasksWfSplit(ts: seq<Task>, us: seq<Task>, own: bool)
    ensures TasksWf(ts + us, own) <==> TasksWf(ts, own) && TasksWf(us, own)
  {
    assert forall t :: t in ts + us <==> t in ts || t in us;
  }

  lemma {:induction false} ExprTasksWf(es: seq<Expr>, env: StaticEnv, own: bool)
    ensures TasksWf(ExprTasks(es, env, 0), own) <==> ExprsWf(es, own)
  {
    var ts := ExprTasks(es, env, 0);
    assert forall x :: x in es ==> exists i :: 0 <= i < |es| && ts[i].e == x && ts[i] in ts;
    assert forall t :: t in ts ==> t.e in es && t.slots == 0;
  }

  lemma {:induction false} SourceDefWf(d: AttrDef, slots: nat, own: bool)
    requires SelectsSource(d)
    ensures Wf(d.e, slots, own) <==> WfNode(d.e.e, slots, own)
  {
    WfByTasks(d.e.e, slots, own);
    WfByTasks(d.e, slots, own);
    assert Tasks(d.e, NoEnv, slots) == [Task(d.e.e, NoEnv, slots)];
  }

  lemma {:induction false} DefTasksWf(
      defs: seq<AttrDef>, plain: StaticEnv, env: StaticEnv, source: StaticEnv, slots: nat, own: bool)
    requires WfDefs(defs)
    ensures TasksWf(DefTasks(defs, plain, env, source, slots), own) <==> DefsWf(defs, slots, own)
  {
    var ts := DefTasks(defs, plain, env, source, slots);
    forall i | 0 <= i < |defs|
      ensures Wf(ts[i].e, ts[i].slots, own) <==> DefWf(defs[i], slots, own)
    {
      if defs[i].kind.InheritedFrom? {
        SourceDefWf(defs[i], slots, own);
      }
    }
    assert forall i :: 0 <= i < |defs| ==> ts[i] in ts;
  }

  lemma {:induction false} DynTasksWf(dyn: seq<DynAttr>, env: StaticEnv, own: bool)
    ensures TasksWf(DynTasks(dyn, env), own) <==> DynsWf(dyn, own)
  {
    var ts := DynTasks(dyn, env);
    if DynsWf(dyn, own) {
      forall t | t in ts
        ensures Wf(t.e, t.slots, own)
      {
        var i :| 0 <= i < |ts| && ts[i] == t;
        assert t == ts[2 * (i / 2)] || t == ts[2 * (i / 2) + 1];
        assert dyn[i / 2] in dyn;
      }
    } else {
      var x :| x in dyn && !(Wf(x.nameExpr, 0, own) && Wf(x.valueExpr, 0, own));
      var i :| 0 <= i < |dyn| && dyn[i] == x;
      assert ts[2 * i] in ts && ts[2 * i + 1] in ts;
    }
  }

  lemma {:induction false} AttrsWf(e: Expr, slots: nat, own: bool)
    requires e.Attrs?
    ensures Wf(e, slots, own) <==> SetWf(e, own)
  {
    WfByTasks(e, slots, own);
    if WfDefs(e.defs) {
      var inner := if e.recursive then RecEnv(e.defs, NoEnv) else NoEnv;
      var a, c := ExprTasks(e.from, inner, 0), DynTasks(e.dyn, inner);
      var b := DefTasks(e.defs, inner, NoEnv, SourceEnv(inner), |e.from|);
      hide RecEnv, SourceEnv, TasksWf, Wf, ExprsWf, DefsWf, DynsWf, WfDefs;
      TasksWfSplit(a, b, own);
      TasksWfSplit(a + b, c, own);
      ExprTasksWf(e.from, inner, own);
      DefTasksWf(e.defs, inner, NoEnv, SourceEnv(inner), |e.from|, own);
      DynTasksWf(e.dyn, inner, own);
    }
  }

  lemma {:induction false} LetWf(e: Expr, slots: nat, own: bool)
    requires e.Let?
    ensures Wf(e, slots, own) <==>
      WfDefs(e.defs) && DefsWf(e.defs, |e.from|, own) && ExprsWf(e.from, own) && Wf(e.body, 0, own)
  {
    WfByTasks(e, slots, own);
    if WfDefs(e.defs) {
      var inner := RecEnv(e.defs, NoEnv);
      var a, c := ExprTasks(e.from, inner, 0), [Task(e.body, inner, 0)];
      var b := DefTasks(e.defs, inner, NoEnv, SourceEnv(inner), |e.from|);
      assert TasksWf(c, own) <==> Wf(e.body, 0, own) by {
        assert c[0] in c;
      }
      hide RecEnv, SourceEnv, TasksWf, Wf, ExprsWf, DefsWf, WfDefs;
      TasksWfSplit(a, b, own);
      TasksWfSplit(a + b, c, own);
      ExprTasksWf(e.from, inner, own);
      DefTasksWf(e.defs, inner, NoEnv, SourceEnv(inner), |e.from|, own);
    }
  }

  /* Insertion and replacement */

  lemma {:induction false} InsertOrdered(defs: seq<AttrDef>, d: AttrDef)
    requires Ordered(defs) && forall c :: c in defs ==> c.name != d.name
    ensures Ordered(Insert(defs, d))
    ensures forall c :: c in Insert(defs, d) <==> c == d || c in defs
  {
    if defs != [] && defs[0].name <= d.name {
      var rest := Insert(defs[1..], d);
      assert defs[0] in defs;
      InsertOrdered(defs[1..], d);
      forall k | 0 <= k < |rest|
        ensures defs[0].name < rest[k].name
      {
        assert rest[k] in rest;
      }
    }
  }

  /** One more definition, old or new: what it does to order and to the set of definitions. */
  lemma {:induction false} AddNewDefs(acc: Expr, d: AttrDef)
    requires acc.Attrs? && Ordered(acc.defs) && AddNew(acc, d).Parsed?
    ensures var r := AddNew(acc, d).value;
      && r == WithDefs(acc, r.defs) && Ordered(r.defs)
      && forall c :: c in r.defs <==> c == d || c in acc.defs
  {
    InsertOrdered(acc.defs, d);
  }

  lemma {:induction false} SetDefWf(acc: Expr, j: nat, e: Expr, other: Expr, slots: nat, crossed: bool)
    requires acc.Attrs? && j < |acc.defs| && Ordered(acc.defs) && DefsWf(acc.defs, slots, false)
    requires !acc.defs[j].kind.InheritedFrom?
    requires Wf(e, 0, false)
    requires Wf(e, 0, true) <==> Wf(acc.defs[j].e, 0, true) && Wf(other, 0, true) && !crossed
    ensures var r := SetDef(acc, j, e);
      && Ordered(r.defs) && DefsWf(r.defs, slots, false)
      && (DefsWf(r.defs, slots, true) <==> DefsWf(acc.defs, slots, true) && Wf(other, 0, true) && !crossed)
      && forall c: AttrDef :: c.kind.InheritedFrom? ==> (c in r.defs <==> c in acc.defs)
  {
    var r := SetDef(acc, j, e);
    hide Wf;
    assert forall k :: 0 <= k < |acc.defs| && k != j ==> r.defs[k] == acc.defs[k];
    ReplacedWf(acc.defs, j, r.defs[j], slots, false);
    ReplacedWf(acc.defs, j, r.defs[j], slots, true);
    assert DefWf(acc.defs[j], slots, true) <==> Wf(acc.defs[j].e, 0, true);
    assert acc.defs[j] in acc.defs;
    forall c: AttrDef | c.kind.InheritedFrom?
      ensures c in r.defs <==> c in acc.defs
    {
      ReplacedIn(acc.defs, j, r.defs[j], c);
    }
  }

  lemma {:induction false} ReplacedIn(defs: seq<AttrDef>, j: nat, d: AttrDef, c: AttrDef)
    requires j < |defs| && c != d && c != defs[j]
    ensures c in defs[j := d] <==> c in defs
  {
    if c in defs {
      var k :| 0 <= k < |defs| && defs[k] == c;
      assert defs[j := d][k] == c;
    }
  }

  lemma {:induction false} ReplacedWf(defs: seq<AttrDef>, j: nat, d: AttrDef, slots: nat, own: bool)
    requires j < |defs|
    requires DefWf(d, slots, own) ==> DefWf(defs[j], slots, own)
    ensures DefsWf(defs[j := d], slots, own) <==> DefsWf(defs, slots, own) && DefWf(d, slots, own)
  {
    hide DefWf;
    var rs := defs[j := d];
    assert rs[j] == d && forall k :: 0 <= k < |defs| ==> rs[k] in rs && defs[k] in defs;
    if DefsWf(rs, slots, own) {
      forall c | c in defs
        ensures DefWf(c, slots, own)
      {
        var k :| 0 <= k < |defs| && defs[k] == c;
        assert k != j ==> rs[k] == c;
      }
    } else {
      var c :| c in rs && !DefWf(c, slots, own);
      var k :| 0 <= k < |rs| && rs[k] == c;
      assert k != j ==> defs[k] == c;
    }
  }

  /* Merging */

  /** What definition `i` of a set becomes in a set with `n` sources, unless it is merged. */
  function Landed(other: Expr, i: nat, n: nat): AttrDef
    requires other.Attrs? && i < |other.defs|
  {
    Moved(other.defs, other.defs[i], n)
  }

  lemma {:induction false} GroupSnoc(defs: seq<AttrDef>, d: AttrDef, source: nat)
    ensures GroupSize(defs + [d], source) == GroupSize(defs, source) + if FromSource(d, source) then 1 else 0
  {
    if defs == [] {
      assert defs + [d] == [d] && [d][1..] == [];
    } else {
      GroupSnoc(defs[1..], d, source);
      assert (defs + [d])[1..] == defs[1..] + [d];
    }
  }

  /** The loop over the definitions of the later set, as far as their nodes go: each node is
      moved in place by the `n` sources of the earlier set, once for every name that shares it. */
  method MoveNodes(defs: seq<AttrDef>, nodes: array<nat>, n: nat)
    requires forall d :: d in defs && d.kind.InheritedFrom? ==>
      SelectsSource(d) && d.e.e.own < nodes.Length && d.e.e.displ == nodes[d.e.e.own]
    modifies nodes
    ensures forall o :: 0 <= o < nodes.Length ==> nodes[o] == old(nodes[o]) + GroupSize(defs, o) * n
    ensures forall d :: d in defs && d.kind.InheritedFrom? ==> Moved(defs, d, n).e.e.displ == nodes[d.e.e.own]
  {
    var i := 0;
    while i < |defs|
      invariant 0 <= i <= |defs|
      invariant forall o :: 0 <= o < nodes.Length ==> nodes[o] == old(nodes[o]) + GroupSize(defs[..i], o) * n
    {
      forall o: nat
        ensures GroupSize(defs[..i + 1], o) == GroupSize(defs[..i], o) + if FromSource(defs[i], o) then 1 else 0
      {
        GroupSnoc(defs[..i], defs[i], o);
        assert defs[..i] + [defs[i]] == defs[..i + 1];
      }
      ghost var before := nodes[..];
      if defs[i].kind.InheritedFrom? {
        var o := defs[i].e.e.own;
        nodes[o] := nodes[o] + n;
      }
      forall o | 0 <= o < nodes.Length
        ensures nodes[o] == old(nodes[o]) + GroupSize(defs[..i + 1], o) * n
      {
        assert before[o] == old(nodes[o]) + GroupSize(defs[..i], o) * n;
        OneMore(GroupSize(defs[..i], o), n);
      }
      i := i + 1;
    }
    assert defs[..i] == defs;
  }

  lemma {:induction false} OneMore(k: nat, n: nat)
    ensures (k + 1) * n == k * n + n
  {
  }

  lemma {:induction false} GroupPositive(defs: seq<AttrDef>, d: AttrDef, source: nat)
    requires d in defs && FromSource(d, source)
    ensures GroupSize(defs, source) > 0
  {
    if defs[0] != d {
      GroupPositive(defs[1..], d, source);
    }
  }

  /** The move is right exactly when the node is moved once, or by nothing. */
  lemma {:induction false} MoveIsRight(displ: nat, own: nat, k: nat, n: nat)
    requires own <= displ && k > 0
    ensures own + n <= displ + k * n
    ensures displ + k * n == own + n <==> displ == own && (n == 0 || k == 1)
  {
    assert k * n == n + (k - 1) * n;
    assert (k - 1) * n >= 0;
    assert n > 0 && k > 1 ==> (k - 1) * n > 0;
  }

  lemma {:induction false} LandedWf(other: Expr, i: nat, n: nat, slots: nat)
    requires other.Attrs? && i < |other.defs| && SetWf(other, false) && n + |other.from| <= slots
    ensures DefWf(Landed(other, i, n), slots, false)
    ensures var d := other.defs[i];
      DefWf(Landed(other, i, n), slots, true) <==>
      DefWf(d, |other.from|, true)
      && (d.kind.InheritedFrom? ==> n == 0 || GroupSize(other.defs, d.e.e.own) <= 1)
  {
    var d := other.defs[i];
    assert d in other.defs;
    if d.kind.InheritedFrom? {
      var node := d.e.e;
      GroupPositive(other.defs, d, node.own);
      MoveIsRight(node.displ, node.own, GroupSize(other.defs, node.own), n);
    }
  }

  /** What adding a definition to a set means: it is there, alone or merged, and definitions
      hold their own sources exactly if they did and nothing crossed. */
  ghost predicate Adds(acc: Expr, d: AttrDef, r: Result<Expr>, slots: nat)
    requires acc.Attrs? && r.Parsed? && r.value.Attrs?
  {
    var defs := r.value.defs;
    && r.value == WithDefs(acc, defs) && Ordered(defs) && DefsWf(defs, slots, false)
    && (DefsWf(defs, slots, true) <==> DefsWf(acc.defs, slots, true) && DefWf(d, slots, true) && !r.crossed)
    && forall c: AttrDef :: c.kind.InheritedFrom? ==> (c in defs <==> c == d || c in acc.defs)
  }

  lemma {:induction false} AddNewWf(acc: Expr, d: AttrDef, slots: nat)
    requires acc.Attrs? && Ordered(acc.defs) && DefsWf(acc.defs, slots, false) && DefWf(d, slots, false)
    requires AddNew(acc, d).Parsed?
    ensures Adds(acc, d, AddNew(acc, d), slots)
  {
    hide DefWf;
    AddNewDefs(acc, d);
  }

  lemma {:induction false} AddDefWf(acc: Expr, d: AttrDef, slots: nat)
    requires acc.Attrs? && Ordered(acc.defs) && DefsWf(acc.defs, slots, false)
    requires !d.kind.InheritedFrom? && Wf(d.e, 0, false)
    requires AddDef(acc, d).Parsed?
    ensures Adds(acc, d, AddDef(acc, d), slots)
    decreases d.e, 1, 0
  {
    var j := Find(acc.defs, d.name);
    if j.Some? && d.e.Attrs? && acc.defs[j.value].e.Attrs? {
      var earlier := acc.defs[j.value];
      assert earlier in acc.defs && DefWf(earlier, slots, false);
      var m := Merge(earlier.e, d.e);
      SetParts(earlier.e);
      SetParts(d.e);
      SetParts(m.value);
      MergeWf(earlier.e, d.e);
      SetDefWf(acc, j.value, m.value, d.e, slots, m.crossed);
    } else {
      AddNewWf(acc, d, slots);
    }
  }

  lemma {:induction false} SetParts(e: Expr)
    requires e.Attrs?
    ensures Wf(e, 0, false) <==> SetWf(e, false)
    ensures Wf(e, 0, true) <==> SetWf(e, true)
  {
    AttrsWf(e, 0, false);
    AttrsWf(e, 0, true);
  }

  lemma {:induction false} MergeDefWf(acc: Expr, other: Expr, i: nat, slots: nat)
    requires acc.Attrs? && Ordered(acc.defs) && DefsWf(acc.defs, slots, false)
    requires other.Attrs? && i < |other.defs| && SetWf(other, false) && |acc.from| + |other.from| <= slots
    requires MergeDef(acc, other, i).Parsed?
    ensures Adds(acc, Landed(other, i, |acc.from|), MergeDef(acc, other, i), slots)
    decreases other, 0, 0
  {
    var d := other.defs[i];
    assert d in other.defs && DefWf(d, |other.from|, false);
    if d.kind.InheritedFrom? {
      LandedWf(other, i, |acc.from|, slots);
      AddNewWf(acc, Landed(other, i, |acc.from|), slots);
    } else {
      AddDefWf(acc, d, slots);
    }
  }

  ghost predicate LandedOwn(other: Expr, i: nat, n: nat, slots: nat)
    requires other.Attrs?
  {
    forall k :: i <= k < |other.defs| ==> DefWf(Landed(other, k, n), slots, true)
  }

  /** The `inherit (from)` definitions of a merged set are those of the earlier one and the
      moved ones of the later, from definition `i` on. */
  ghost predicate Merges(acc: Expr, other: Expr, i: nat, defs: seq<AttrDef>)
    requires acc.Attrs? && other.Attrs?
  {
    forall c: AttrDef :: c.kind.InheritedFrom? ==>
      (c in defs <==> c in acc.defs || exists k :: i <= k < |other.defs| && c == Landed(other, k, |acc.from|))
  }

  lemma {:induction false} MergeDefsWf(acc: Expr, other: Expr, i: nat, slots: nat)
    requires acc.Attrs? && Ordered(acc.defs) && DefsWf(acc.defs, slots, false)
    requires other.Attrs? && i <= |other.defs| && SetWf(other, false) && |acc.from| + |other.from| <= slots
    requires MergeDefs(acc, other, i).Parsed?
    ensures var r := MergeDefs(acc, other, i); var defs := r.value.defs;
      && r.value == WithDefs(acc, defs) && Ordered(defs) && DefsWf(defs, slots, false)
      && (DefsWf(defs, slots, true) <==>
            DefsWf(acc.defs, slots, true) && LandedOwn(other, i, |acc.from|, slots) && !r.crossed)
      && Merges(acc, other, i, defs)
    decreases other, 0, |other.defs| - i
  {
    if i < |other.defs| {
      hide DefsWf, DefWf, SetWf, Ordered, MergeDef, Landed;
      var r := MergeDef(acc, other, i);
      MergeDefWf(acc, other, i, slots);
      MergeDefsWf(r.value, other, i + 1, slots);
    }
  }

  /** More slots change nothing about definitions that fit in fewer. */
  lemma {:induction false} MoreSlots(defs: seq<AttrDef>, few: nat, slots: nat)
    requires DefsWf(defs, few, false) && few <= slots
    ensures DefsWf(defs, slots, false)
    ensures DefsWf(defs, slots, true) <==> DefsWf(defs, few, true)
  {
    forall d | d in defs
      ensures DefWf(d, slots, false) && (DefWf(d, slots, true) <==> DefWf(d, few, true))
    {
      assert DefWf(d, few, false);
    }
  }

  lemma {:induction false} AllLandedOwn(other: Expr, n: nat, slots: nat)
    requires other.Attrs? && SetWf(other, false) && n + |other.from| <= slots
    ensures LandedOwn(other, 0, n, slots) <==>
      DefsWf(other.defs, |other.from|, true) && (n == 0 || OneNameEach(other.defs))
  {
    var defs := other.defs;
    forall k | 0 <= k < |defs|
      ensures DefWf(Landed(other, k, n), slots, true) <==>
        DefWf(defs[k], |other.from|, true)
        && (defs[k].kind.InheritedFrom? ==> n == 0 || GroupSize(defs, defs[k].e.e.own) <= 1)
      ensures defs[k] in defs
    {
      LandedWf(other, k, n, slots);
    }
    if LandedOwn(other, 0, n, slots) {
      forall d | d in defs
        ensures DefWf(d, |other.from|, true)
        ensures d.kind.InheritedFrom? ==> n == 0 || GroupSize(defs, d.e.e.own) <= 1
      {
        var k :| 0 <= k < |defs| && defs[k] == d;
        assert DefWf(Landed(other, k, n), slots, true);
      }
    }
  }

  /** A merge keeps the shape of sets, and leaves every definition with the index of its own
      source exactly when both sets had that and, if the earlier one has sources, no
      `inherit (from)` of the later one lists more than one name. */
  lemma {:induction false} MergeWf(acc: Expr, other: Expr)
    requires acc.Attrs? && other.Attrs? && SetWf(acc, false) && SetWf(other, false)
    requires Merge(acc, other).Parsed?
    ensures var r := Merge(acc, other);
      && SetWf(r.value, false)
      && (SetWf(r.value, true) <==> SetWf(acc, true) && SetWf(other, true) && !r.crossed)
    decreases other, 0, |other.defs| + 1
  {
    var n, slots := |acc.from|, |acc.from| + |other.from|;
    hide Merge, MergeDefs, DefsWf, DefWf, ExprsWf, DynsWf, WfDefs, Ordered, SharedNodes, LandedOwn, Landed, Wf;
    hide OneNameEach, Merges;
    MergeIs(acc, other);
    WfOrdered(acc.defs);
    MoreSlots(acc.defs, n, slots);
    MergeDefsWf(acc, other, 0, slots);
    AllLandedOwn(other, n, slots);
    MergedShared(acc, other);
    MergedShape(MergeDefs(acc, other, 0).value.defs, slots);
    JoinedWf(acc, other, false);
    JoinedWf(acc, other, true);
  }

  lemma {:induction false} MergeIs(acc: Expr, other: Expr)
    requires acc.Attrs? && other.Attrs? && Merge(acc, other).Parsed?
    ensures var r, m := MergeDefs(acc, other, 0), Merge(acc, other);
      && r.Parsed? && m.value.defs == r.value.defs
      && m.value.from == acc.from + other.from && m.value.dyn == acc.dyn + other.dyn
      && m.crossed == (r.crossed || (acc.from != [] && !OneNameEach(other.defs)))
  {
    hide MergeDefs;
  }

  lemma {:induction false} WfOrdered(defs: seq<AttrDef>)
    requires WfDefs(defs)
    ensures Ordered(defs)
  {
  }

  lemma {:induction false} MergedShape(defs: seq<AttrDef>, slots: nat)
    requires Ordered(defs) && DefsWf(defs, slots, false) && SharedNodes(defs)
    ensures WfDefs(defs)
  {
    forall i | 0 <= i < |defs| && defs[i].kind.InheritedFrom?
      ensures SelectsSource(defs[i])
    {
      assert DefWf(defs[i], slots, false);
    }
  }

  lemma {:induction false} JoinedWf(acc: Expr, other: Expr, own: bool)
    requires acc.Attrs? && other.Attrs?
    ensures ExprsWf(acc.from + other.from, own) <==> ExprsWf(acc.from, own) && ExprsWf(other.from, own)
    ensures DynsWf(acc.dyn + other.dyn, own) <==> DynsWf(acc.dyn, own) && DynsWf(other.dyn, own)
  {
    hide Wf;
    assert forall x :: x in acc.from + other.from <==> x in acc.from || x in other.from;
    assert forall x :: x in acc.dyn + other.dyn <==> x in acc.dyn || x in other.dyn;
  }

  /** Names that shared a node still do, and no others have come to. */
  lemma {:induction false} MergedShared(acc: Expr, other: Expr)
    requires acc.Attrs? && other.Attrs? && SetWf(acc, false) && SetWf(other, false)
    requires MergeDefs(acc, other, 0).Parsed? && Merges(acc, other, 0, MergeDefs(acc, other, 0).value.defs)
    ensures SharedNodes(MergeDefs(acc, other, 0).value.defs)
  {
    var defs := MergeDefs(acc, other, 0).value.defs;
    forall c, d | c in defs && d in defs && SameSource(c, d)
      ensures c.e.e.displ == d.e.e.displ
    {
      hide SetWf, MergeDefs, Landed;
      Origin(acc, other, defs, c);
      Origin(acc, other, defs, d);
      if c in acc.defs {
        assert SharedNodes(acc.defs) by {
          SetShares(acc);
        }
      } else {
        var i :| 0 <= i < |other.defs| && c == Landed(other, i, |acc.from|);
        var j :| 0 <= j < |other.defs| && d == Landed(other, j, |acc.from|);
        LandedShares(other, i, j, |acc.from|);
      }
    }
  }

  lemma {:induction false} SetShares(e: Expr)
    requires e.Attrs? && SetWf(e, false)
    ensures SharedNodes(e.defs)
  {
  }

  /** The two kinds are told apart by their source. */
  lemma {:induction false} Origin(acc: Expr, other: Expr, defs: seq<AttrDef>, c: AttrDef)
    requires acc.Attrs? && other.Attrs? && SetWf(acc, false) && SetWf(other, false)
    requires Merges(acc, other, 0, defs) && c in defs && c.kind.InheritedFrom? && SelectsSource(c)
    ensures c in acc.defs <==> c.e.e.own < |acc.from|
    ensures c !in acc.defs ==> exists k :: 0 <= k < |other.defs| && c == Landed(other, k, |acc.from|)
  {
    hide Wf, GroupSize;
    if c in acc.defs {
      assert DefWf(c, |acc.from|, false);
    } else {
      var k :| 0 <= k < |other.defs| && c == Landed(other, k, |acc.from|);
      assert other.defs[k] in other.defs && DefWf(other.defs[k], |other.from|, false);
    }
  }

  lemma {:induction false} LandedShares(other: Expr, i: nat, j: nat, n: nat)
    requires other.Attrs? && SetWf(other, false) && i < |other.defs| && j < |other.defs|
    requires SameSource(Landed(other, i, n), Landed(other, j, n))
    ensures Landed(other, i, n).e.e.displ == Landed(other, j, n).e.e.displ
  {
    hide Wf, GroupSize;
    var c, d := other.defs[i], other.defs[j];
    assert c in other.defs && d in other.defs;
    assert DefWf(c, |other.from|, false) && DefWf(d, |other.from|, false);
    assert SameSource(c, d);
  }

  /** A definition's own source goes where the definition goes: the index it is known by in
      the merged set is that of the same expression. First for one of the earlier set. */
  lemma {:induction false} MergeKeepsSource(acc: Expr, other: Expr, d: AttrDef)
    requires acc.Attrs? && other.Attrs? && SetWf(acc, false) && SetWf(other, false)
    requires Merge(acc, other).Parsed?
    requires d in acc.defs && d.kind.InheritedFrom?
    ensures SelectsSource(d) && d.e.e.own < |acc.from|
    ensures var m := Merge(acc, other).value;
      d in m.defs && d.e.e.own < |m.from| && m.from[d.e.e.own] == acc.from[d.e.e.own]
  {
    assert DefWf(d, |acc.from|, false);
    hide DefWf, SetWf, DefsWf, Landed;
    MergedDefs(acc, other, d);
  }

  lemma {:induction false} MergeMovesSource(acc: Expr, other: Expr, d: AttrDef)
    requires acc.Attrs? && other.Attrs? && SetWf(acc, false) && SetWf(other, false)
    requires Merge(acc, other).Parsed?
    requires d in other.defs && d.kind.InheritedFrom?
    ensures SelectsSource(d) && d.e.e.own < |other.from|
    ensures var m, c := Merge(acc, other).value, Moved(other.defs, d, |acc.from|);
      && c in m.defs && c.name == d.name && SelectsSource(c)
      && c.e.e.own < |m.from| && m.from[c.e.e.own] == other.from[d.e.e.own]
  {
    assert DefWf(d, |other.from|, false);
    hide DefWf, SetWf, DefsWf, GroupSize;
    var k :| 0 <= k < |other.defs| && other.defs[k] == d;
    assert Landed(other, k, |acc.from|) == Moved(other.defs, d, |acc.from|);
    MergedDefs(acc, other, Moved(other.defs, d, |acc.from|));
  }

  lemma {:induction false} MergedDefs(acc: Expr, other: Expr, c: AttrDef)
    requires acc.Attrs? && other.Attrs? && SetWf(acc, false) && SetWf(other, false)
    requires Merge(acc, other).Parsed? && c.kind.InheritedFrom?
    ensures c in Merge(acc, other).value.defs <==>
      c in acc.defs || exists k :: 0 <= k < |other.defs| && c == Landed(other, k, |acc.from|)
    ensures Merge(acc, other).value.from == acc.from + other.from
  {
    hide DefWf, Landed;
    MoreSlots(acc.defs, |acc.from|, |acc.from| + |other.from|);
    MergeDefsWf(acc, other, 0, |acc.from| + |other.from|);
  }

  /* Bindings */

  ghost predicate NameWf(n: Name<Expr>, own: bool) {
    n.Dynamic? ==> Wf(n.e, 0, own)
  }

  ghost predicate NamesWf(path: seq<Name<Expr>>, own: bool) {
    forall n :: n in path ==> NameWf(n, own)
  }

  /** The set is as the parser makes them, and its definitions hold their own sources exactly
      under the condition given. */
  ghost predicate WfIff(e: Expr, condition: bool)
    requires e.Attrs?
  {
    SetWf(e, false) && (SetWf(e, true) <==> condition)
  }

  /** A set with new definitions of which none is new from a source. */
  lemma {:induction false} NewDefsWf(acc: Expr, d: AttrDef, r: Result<Expr>)
    requires acc.Attrs? && SetWf(acc, false) && !d.kind.InheritedFrom?
    requires r.Parsed? && r.value.Attrs? && Adds(acc, d, r, |acc.from|)
    ensures WfIff(r.value, SetWf(acc, true) && Wf(d.e, 0, true) && !r.crossed)
  {
    forall c | c in r.value.defs && c.kind.InheritedFrom?
      ensures SelectsSource(c)
    {
      assert DefWf(c, |acc.from|, false);
    }
  }

  lemma {:induction false} PlainDefWf(acc: Expr, name: Symbol, e: Expr)
    requires acc.Attrs? && SetWf(acc, false) && Wf(e, 0, false)
    requires AddDef(acc, AttrDef(name, Plain, e)).Parsed?
    ensures var r := AddDef(acc, AttrDef(name, Plain, e));
      WfIff(r.value, SetWf(acc, true) && Wf(e, 0, true) && !r.crossed)
  {
    var d := AttrDef(name, Plain, e);
    AddDefWf(acc, d, |acc.from|);
    NewDefsWf(acc, d, AddDef(acc, d));
  }

  lemma {:induction false} DynWf(acc: Expr, x: Expr, e: Expr)
    requires acc.Attrs? && SetWf(acc, false) && Wf(x, 0, false) && Wf(e, 0, false)
    ensures WfIff(WithDyn(acc, acc.dyn + [DynAttr(x, e)]), SetWf(acc, true) && Wf(x, 0, true) && Wf(e, 0, true))
  {
    var dyn := acc.dyn + [DynAttr(x, e)];
    assert forall y :: y in dyn <==> y in acc.dyn || y == DynAttr(x, e);
  }

  lemma {:induction false} EmptyWf(recursive: bool)
    ensures SetWf(Attrs(recursive, [], [], []), false) && SetWf(Attrs(recursive, [], [], []), true)
  {
  }

  /** Everything a path and its value bring along. */
  ghost predicate PathWf(prefix: seq<Name<Expr>>, last: Name<Expr>, e: Expr, own: bool) {
    Wf(e, 0, own) && NamesWf(prefix, own) && NameWf(last, own)
  }

  lemma {:induction false} PathWfRest(prefix: seq<Name<Expr>>, last: Name<Expr>, e: Expr, own: bool)
    requires prefix != []
    ensures PathWf(prefix, last, e, own) <==> NameWf(prefix[0], own) && PathWf(prefix[1..], last, e, own)
  {
    assert forall n :: n in prefix <==> n == prefix[0] || n in prefix[1..];
  }

  lemma {:induction false} AddPathWf(acc: Expr, prefix: seq<Name<Expr>>, last: Name<Expr>, e: Expr)
    requires acc.Attrs? && SetWf(acc, false) && PathWf(prefix, last, e, false)
    requires AddPath(acc, prefix, last, e).Parsed?
    ensures var r := AddPath(acc, prefix, last, e);
      WfIff(r.value, SetWf(acc, true) && PathWf(prefix, last, e, true) && !r.crossed)
    decreases |prefix|, 0
  {
    if prefix == [] {
      AddLastWf(acc, last, e);
    } else {
      PathWfRest(prefix, last, e, false);
      PathWfRest(prefix, last, e, true);
      hide SetWf, DefWf, Wf, PathWf;
      if prefix[0].Static? && Find(acc.defs, prefix[0].name).Some? {
        EnteredWf(acc, prefix, last, e);
      } else {
        MadeWf(acc, prefix, last, e);
      }
    }
  }

  /** The path goes through a set that is made for it. */
  lemma {:induction false} MadeWf(acc: Expr, prefix: seq<Name<Expr>>, last: Name<Expr>, e: Expr)
    requires prefix != [] && acc.Attrs? && (prefix[0].Static? ==> Find(acc.defs, prefix[0].name).None?)
    requires SetWf(acc, false) && NameWf(prefix[0], false) && PathWf(prefix[1..], last, e, false)
    requires AddPath(acc, prefix, last, e).Parsed?
    ensures var r := AddPath(acc, prefix, last, e);
      WfIff(r.value, SetWf(acc, true) && NameWf(prefix[0], true) && PathWf(prefix[1..], last, e, true) && !r.crossed)
    decreases |prefix| - 1, 2
  {
    hide SetWf, DefWf, Wf, PathWf;
    NestedWf(prefix[1..], last, e);
    match prefix[0]
    case Static(name) => NewNestedWf(acc, name, AddPath(EMPTY_SET, prefix[1..], last, e));
    case Dynamic(x) => DynWf(acc, x, AddPath(EMPTY_SET, prefix[1..], last, e).value);
  }

  lemma {:induction false} AddLastWf(acc: Expr, last: Name<Expr>, e: Expr)
    requires acc.Attrs? && SetWf(acc, false) && PathWf([], last, e, false)
    requires AddPath(acc, [], last, e).Parsed?
    ensures var r := AddPath(acc, [], last, e);
      WfIff(r.value, SetWf(acc, true) && PathWf([], last, e, true) && !r.crossed)
  {
    hide SetWf, DefWf, Wf;
    match last
    case Static(name) => PlainDefWf(acc, name, e);
    case Dynamic(x) => DynWf(acc, x, e);
  }

  /** The path goes through a set that is there. */
  lemma {:induction false} EnteredWf(acc: Expr, prefix: seq<Name<Expr>>, last: Name<Expr>, e: Expr)
    requires prefix != [] && prefix[0].Static? && acc.Attrs? && Find(acc.defs, prefix[0].name).Some?
    requires SetWf(acc, false) && PathWf(prefix[1..], last, e, false)
    requires AddPath(acc, prefix, last, e).Parsed?
    ensures var r := AddPath(acc, prefix, last, e);
      WfIff(r.value, SetWf(acc, true) && PathWf(prefix[1..], last, e, true) && !r.crossed)
    decreases |prefix| - 1, 2
  {
    hide SetWf, DefWf, Wf, PathWf;
    var j := Find(acc.defs, prefix[0].name).value;
    var nested := AddPath(acc.defs[j].e, prefix[1..], last, e);
    OldNestedWf(acc, j);
    AddPathWf(acc.defs[j].e, prefix[1..], last, e);
    SetNestedWf(acc, j, nested.value, PathWf(prefix[1..], last, e, true) && !nested.crossed);
  }

  /** The set that is made on the way. */
  lemma {:induction false} NestedWf(prefix: seq<Name<Expr>>, last: Name<Expr>, e: Expr)
    requires PathWf(prefix, last, e, false)
    requires AddPath(EMPTY_SET, prefix, last, e).Parsed?
    ensures var r := AddPath(EMPTY_SET, prefix, last, e);
      && Wf(r.value, 0, false)
      && (Wf(r.value, 0, true) <==> PathWf(prefix, last, e, true) && !r.crossed)
    decreases |prefix|, 1
  {
    EmptyWf(false);
    hide SetWf, Wf, PathWf;
    AddPathWf(EMPTY_SET, prefix, last, e);
    SetParts(AddPath(EMPTY_SET, prefix, last, e).value);
  }

  lemma {:induction false} NewNestedWf(acc: Expr, name: Symbol, nested: Result<Expr>)
    requires acc.Attrs? && SetWf(acc, false) && Find(acc.defs, name).None?
    requires nested.Parsed? && Wf(nested.value, 0, false)
    ensures WfIff(WithDefs(acc, Insert(acc.defs, AttrDef(name, Plain, nested.value))),
                  SetWf(acc, true) && Wf(nested.value, 0, true))
  {
    var d := AttrDef(name, Plain, nested.value);
    AddNewWf(acc, d, |acc.from|);
    NewDefsWf(acc, d, AddNew(acc, d));
  }

  lemma {:induction false} OldNestedWf(acc: Expr, j: nat)
    requires acc.Attrs? && SetWf(acc, false) && j < |acc.defs| && acc.defs[j].e.Attrs?
    ensures SetWf(acc.defs[j].e, false) && !acc.defs[j].kind.InheritedFrom?
  {
    assert acc.defs[j] in acc.defs && DefWf(acc.defs[j], |acc.from|, false);
    SetParts(acc.defs[j].e);
  }

  lemma {:induction false} SetNestedWf(acc: Expr, j: nat, nested: Expr, condition: bool)
    requires acc.Attrs? && SetWf(acc, false) && j < |acc.defs| && acc.defs[j].e.Attrs? && nested.Attrs?
    requires WfIff(nested, SetWf(acc.defs[j].e, true) && condition)
    ensures WfIff(SetDef(acc, j, nested), SetWf(acc, true) && condition)
  {
    OldNestedWf(acc, j);
    SetParts(acc.defs[j].e);
    SetParts(nested);
    LeafWf(0);
    SetDefWf(acc, j, nested, Int(0), |acc.from|, !condition);
    forall c | c in SetDef(acc, j, nested).defs && c.kind.InheritedFrom?
      ensures SelectsSource(c)
    {
      assert DefWf(c, |acc.from|, false);
    }
  }

  lemma {:induction false} LeafWf(n: int)
    ensures Wf(Int(n), 0, false) && Wf(Int(n), 0, true)
  {
  }

  lemma {:induction false} AddInheritedWf(acc: Expr, vars: seq<VarRef>)
    requires acc.Attrs? && SetWf(acc, false) && AddInherited(acc, vars).Parsed?
    ensures WfIff(AddInherited(acc, vars).value, SetWf(acc, true)) && !AddInherited(acc, vars).crossed
    decreases |vars|
  {
    if vars != [] {
      var d := AttrDef(vars[0].name, Inherited, Var(vars[0].id, vars[0].name));
      var r := AddNew(acc, d);
      assert Wf(d.e, 0, false) && Wf(d.e, 0, true);
      AddNewWf(acc, d, |acc.from|);
      NewDefsWf(acc, d, r);
      hide SetWf;
      AddInheritedWf(r.value, vars[1..]);
    }
  }

  /** Every definition from source number `source` has the node the parser has just made. */
  ghost predicate FreshNode(defs: seq<AttrDef>, source: nat) {
    forall d :: d in defs && FromSource(d, source) ==> d.e.e.displ == source
  }

  lemma {:induction false} AddFromWf(acc: Expr, source: nat, names: seq<Symbol>)
    requires acc.Attrs? && SetWf(acc, false) && source < |acc.from| && FreshNode(acc.defs, source)
    requires AddFrom(acc, source, names).Parsed?
    ensures WfIff(AddFrom(acc, source, names).value, SetWf(acc, true)) && !AddFrom(acc, source, names).crossed
    decreases |names|
  {
    if names != [] {
      var x := Select(Expr.InheritFrom(source, source), [names[0]], None);
      var d := AttrDef(names[0], InheritedFrom, x);
      var r := AddNew(acc, d);
      AddNewWf(acc, d, |acc.from|);
      NewNameShares(acc, d, r.value, source);
      hide DefWf, DefsWf, Wf, SharedNodes;
      AddFromWf(r.value, source, names[1..]);
    }
  }

  /** The new name shares the fresh node. */
  lemma {:induction false} NewNameShares(acc: Expr, d: AttrDef, r: Expr, source: nat)
    requires acc.Attrs? && SetWf(acc, false) && FreshNode(acc.defs, source)
    requires FromSource(d, source) && d.e.e.displ == source
    requires r.Attrs? && forall c: AttrDef :: c.kind.InheritedFrom? ==> (c in r.defs <==> c == d || c in acc.defs)
    ensures SharedNodes(r.defs) && FreshNode(r.defs, source)
    ensures forall c :: c in r.defs && c.kind.InheritedFrom? ==> SelectsSource(c)
  {
    hide DefsWf, DynsWf, ExprsWf;
    assert forall c :: c in acc.defs && c.kind.InheritedFrom? ==> SelectsSource(c);
  }

  /** A new source, and the names inherited from it. */
  lemma {:induction false} NewSourceWf(acc: Expr, e: Expr, names: seq<Symbol>)
    requires acc.Attrs? && SetWf(acc, false) && Wf(e, 0, false)
    requires AddFrom(WithFrom(acc, acc.from + [e]), |acc.from|, names).Parsed?
    ensures var r := AddFrom(WithFrom(acc, acc.from + [e]), |acc.from|, names);
      WfIff(r.value, SetWf(acc, true) && Wf(e, 0, true)) && !r.crossed
  {
    var n, next := |acc.from|, WithFrom(acc, acc.from + [e]);
    MoreSlots(acc.defs, n, n + 1);
    assert forall x :: x in next.from <==> x in acc.from || x == e;
    forall d | d in acc.defs
      ensures !FromSource(d, n)
    {
      assert DefWf(d, n, false);
    }
    AddFromWf(next, n, names);
  }

  /* Formals */

  ghost predicate WeaklyOrdered(fs: seq<Formal>) {
    forall i, j :: 0 <= i < j < |fs| ==> fs[i].name <= fs[j].name
  }

  lemma {:induction false} InsertFormalOrdered(fs: seq<Formal>, f: Formal)
    requires WeaklyOrdered(fs)
    ensures WeaklyOrdered(InsertFormal(fs, f))
    ensures forall x :: x in InsertFormal(fs, f) <==> x == f || x in fs
  {
    if fs != [] && fs[0].name <= f.name {
      var rest := InsertFormal(fs[1..], f);
      InsertFormalOrdered(fs[1..], f);
      assert forall x :: x in fs <==> x == fs[0] || x in fs[1..];
      forall k | 0 <= k < |rest|
        ensures fs[0].name <= rest[k].name
      {
        assert rest[k] in rest;
      }
    }
  }

  lemma {:induction false} SortFormalsOrdered(fs: seq<Formal>)
    ensures WeaklyOrdered(SortFormals(fs))
    ensures forall x :: x in SortFormals(fs) <==> x in fs
  {
    if fs != [] {
      var init, last := fs[..|fs| - 1], fs[|fs| - 1];
      SortFormalsOrdered(init);
      InsertFormalOrdered(SortFormals(init), last);
      assert fs == init + [last];
    }
  }

  lemma {:induction false} RepeatedExactly(fs: seq<Formal>)
    requires WeaklyOrdered(fs)
    ensures Repeated(fs).None? <==> forall i, j :: 0 <= i < j < |fs| ==> fs[i].name < fs[j].name
  {
    if |fs| >= 2 {
      RepeatedExactly(fs[1..]);
      if fs[0].name != fs[1].name && Repeated(fs).None? {
        forall j | 0 < j < |fs|
          ensures fs[0].name < fs[j].name
        {
          assert fs[1].name <= fs[j].name;
        }
      }
    }
  }

  /** Formals are refused unless their names differ from each other and from that of `@`. */
  lemma {:induction false} ValidateWf(fs: seq<Formal>, ellipsis: bool, at: Option<Symbol>)
    ensures var r := Validate(fs, ellipsis, at);
      r.Parsed? ==>
      && WfFormals(at, Some(r.value)) && r.value.ellipsis == ellipsis && !r.crossed
      && forall x :: x in r.value.formals <==> x in fs
  {
    SortFormalsOrdered(fs);
    RepeatedExactly(SortFormals(fs));
  }

  /* Expressions */

  ghost predicate FormalsWf(fs: seq<Formal>, own: bool) {
    forall f :: f in fs && f.def.Some? ==> Wf(f.def.value, 0, own)
  }

  lemma {:induction false} LambdaWf(e: Expr, own: bool)
    requires e.Lambda?
    ensures Wf(e, 0, own) <==>
      WfFormals(e.arg, e.formals) && FormalsWf(FormalsOf(e.formals), own) && Wf(e.body, 0, own)
  {
    var fs, inner := FormalsOf(e.formals), LambdaEnv(e.arg, e.formals, NoEnv);
    var ts, body := DefaultTasks(fs, inner), [Task(e.body, inner, 0)];
    WfByTasks(e, 0, own);
    LambdaTasks(e);
    hide *;
    TasksWfSplit(ts, body, own);
    OneTaskWf(body[0], own);
    DefaultTasksWf(fs, inner, own);
  }

  lemma {:induction false} LambdaTasks(e: Expr)
    requires e.Lambda?
    ensures var inner := LambdaEnv(e.arg, e.formals, NoEnv);
      Tasks(e, NoEnv, 0) == DefaultTasks(FormalsOf(e.formals), inner) + [Task(e.body, inner, 0)]
    ensures forall own :: WfNode(e, 0, own) <==> WfFormals(e.arg, e.formals)
  {
    hide WfFormals, LambdaEnv, DefaultTasks;
  }

  lemma {:induction false} OneTaskWf(t: Task, own: bool)
    ensures TasksWf([t], own) <==> Wf(t.e, t.slots, own)
  {
    hide Wf;
    assert t in [t];
  }

  lemma {:induction false} DefaultTasksWf(fs: seq<Formal>, env: StaticEnv, own: bool)
    ensures TasksWf(DefaultTasks(fs, env), own) <==> FormalsWf(fs, own)
  {
    var ts := DefaultTasks(fs, env);
    if FormalsWf(fs, own) {
      forall t | t in ts
        ensures Wf(t.e, t.slots, own)
      {
        var i :| 0 <= i < |fs| && fs[i].def.Some? && t == Task(fs[i].def.value, env, 0);
        assert fs[i] in fs;
      }
    } else {
      var f :| f in fs && f.def.Some? && !Wf(f.def.value, 0, own);
      var i :| 0 <= i < |fs| && fs[i] == f;
      assert Task(f.def.value, env, 0) in ts;
    }
  }

  /** The parts of an expression that makes no frame. */
  function Parts(s: Syn): (r: seq<Syn>)
    ensures forall x :: x in r ==> x < s
  {
    match s
    case SSelect(x, _, def) => if def.Some? then [x, def.value] else [x]
    case SList(elems) => elems
    case SCall(fun, args) => [fun] + args
    case SWith(_, attrs, body) => [attrs, body]
    case SIf(cond, thn, els) => [cond, thn, els]
    case _ => []
  }

  ghost predicate HasParts(e: Expr, es: seq<Expr>) {
    match e
    case Select(x, _, def) => es == if def.Some? then [x, def.value] else [x]
    case List(elems) => es == elems
    case Call(fun, args) => es == [fun] + args
    case With(_, attrs, body) => es == [attrs, body]
    case If(cond, thn, els) => es == [cond, thn, els]
    case Attrs(_, _, _, _) => false
    case Let(_, _, _) => false
    case Lambda(_, _, _) => false
    case InheritFrom(_, _) => false
    case _ => es == []
  }

  lemma {:induction false} ParsedParts(s: Syn)
    requires !s.SSet? && !s.SLambda? && !s.SLet? && Parse(s).Parsed?
    ensures ParseAll(s, Parts(s)).Parsed? && HasParts(Parse(s).value, ParseAll(s, Parts(s)).value)
    ensures Parse(s).crossed == ParseAll(s, Parts(s)).crossed
    ensures OwnIds(Parse(s).value) == if s.SVar? || s.SWith? then {s.id} else {}
  {
    if s.SInt? || s.SStr? || s.SNull? || s.SVar? {
      assert ParseAll(s, []) == Parsed([], false);
    } else {
      hide ParseAll;
      var es := ParseAll(s, Parts(s)).value;
      assert |es| == |Parts(s)|;
    }
  }

  /** A node that makes no frame has the guarantees of its parts. */
  lemma {:induction false} NodeWf(e: Expr, es: seq<Expr>, own: bool)
    requires HasParts(e, es)
    ensures Wf(e, 0, own) <==> ExprsWf(es, own)
  {
    WfByTasks(e, 0, own);
    PartsAreTasks(e, es);
    var ts := Tasks(e, NoEnv, 0);
    hide Wf, Tasks;
    assert forall i :: 0 <= i < |es| ==> ts[i] in ts && es[i] in es;
  }

  lemma {:induction false} PartsAreTasks(e: Expr, es: seq<Expr>)
    requires HasParts(e, es)
    ensures var ts := Tasks(e, NoEnv, 0);
      |ts| == |es| && forall i :: 0 <= i < |es| ==> ts[i].e == es[i] && ts[i].slots == 0
  {
  }

  /** What the parser guarantees: the expression has the right shape, and every
      `inherit (from)` definition the index of its own source exactly if nothing crossed. */
  ghost predicate Guaranteed(r: Result<Expr>) {
    r.Parsed? ==> Wf(r.value, 0, false) && (Wf(r.value, 0, true) <==> !r.crossed)
  }

  ghost predicate AllGuaranteed(r: Result<seq<Expr>>) {
    r.Parsed? ==> ExprsWf(r.value, false) && (ExprsWf(r.value, true) <==> !r.crossed)
  }

  lemma {:induction false} PartsGuaranteed(s: Syn)
    requires !s.SSet? && !s.SLambda? && !s.SLet? && AllGuaranteed(ParseAll(s, Parts(s)))
    ensures Guaranteed(Parse(s))
  {
    if Parse(s).Parsed? {
      ParsedParts(s);
      hide Parse, ParseAll, Parts, HasParts, ExprsWf;
      NodeWf(Parse(s).value, ParseAll(s, Parts(s)).value, false);
      NodeWf(Parse(s).value, ParseAll(s, Parts(s)).value, true);
    }
  }

  /** Every program the parser accepts has the shape the later passes rely on; and evaluation
      will find every `inherit (from)` definition's own source if and only if no such
      definition of several names was merged into a set that already had sources. */
  lemma {:induction false} ParseGuarantees(s: Syn)
    ensures Guaranteed(Parse(s))
    decreases s, 1, 0
  {
    hide SetWf, Wf, Guaranteed;
    match s
    case SSet(_, _) => SetGuaranteed(s);
    case SLambda(params, body) =>
      ParseGuarantees(body);
      if params.SetParams? {
        ParseFormalsGuarantees(s, params.formals);
      }
      LambdaGuaranteed(s);
    case SLet(binds, body) =>
      EmptyWf(false);
      ParseBindsGuarantees(s, binds, EMPTY_SET);
      ParseGuarantees(body);
      LetGuaranteed(s);
    case _ =>
      ParseAllGuarantees(s, Parts(s));
      PartsGuaranteed(s);
  }

  lemma {:induction false} SetGuaranteed(s: Syn)
    requires s.SSet?
    ensures Guaranteed(Parse(s))
    decreases s, 0, |s.binds| + 1
  {
    EmptyWf(s.recursive);
    hide SetWf, Wf;
    ParseBindsGuarantees(s, s.binds, Attrs(s.recursive, [], [], []));
    if Parse(s).Parsed? {
      SetParts(Parse(s).value);
    }
  }

  lemma {:induction false} LambdaGuaranteed(s: Syn)
    requires s.SLambda? && Guaranteed(Parse(s.body))
    requires s.params.SetParams? ==> FormalsGuaranteed(ParseFormals(s, s.params.formals))
    ensures Guaranteed(Parse(s))
  {
    if Parse(s).Parsed? {
      LambdaWf(Parse(s).value, false);
      LambdaWf(Parse(s).value, true);
      if s.params.SetParams? {
        ValidateWf(ParseFormals(s, s.params.formals).value, s.params.ellipsis, s.params.at);
      }
    }
  }

  lemma {:induction false} LetGuaranteed(s: Syn)
    requires s.SLet? && Guaranteed(Parse(s.body))
    requires var r := ParseBinds(s, s.binds, EMPTY_SET); r.Parsed? ==> WfIff(r.value, !r.crossed)
    ensures Guaranteed(Parse(s))
  {
    if Parse(s).Parsed? {
      LetWf(Parse(s).value, 0, false);
      LetWf(Parse(s).value, 0, true);
    }
  }

  lemma {:induction false} ParseAllGuarantees(parent: Syn, es: seq<Syn>)
    requires forall x :: x in es ==> x < parent
    ensures AllGuaranteed(ParseAll(parent, es))
    decreases parent, 0, |es|
  {
    if es != [] {
      assert es[0] in es && forall x :: x in es[1..] ==> x in es;
      ParseGuarantees(es[0]);
      ParseAllGuarantees(parent, es[1..]);
      if ParseAll(parent, es).Parsed? {
        var first, rest := Parse(es[0]).value, ParseAll(parent, es[1..]).value;
        assert forall x :: x in [first] + rest <==> x == first || x in rest;
      }
    }
  }

  ghost predicate FormalsGuaranteed(r: Result<seq<Formal>>) {
    r.Parsed? ==> FormalsWf(r.value, false) && (FormalsWf(r.value, true) <==> !r.crossed)
  }

  lemma {:induction false} ParseFormalsGuarantees(parent: Syn, formals: seq<SynFormal>)
    requires forall f :: f in formals && f.def.Some? ==> f.def.value < parent
    ensures FormalsGuaranteed(ParseFormals(parent, formals))
    decreases parent, 0, |formals|
  {
    if formals != [] {
      assert formals[0] in formals && forall f :: f in formals[1..] ==> f in formals;
      if formals[0].def.Some? {
        ParseGuarantees(formals[0].def.value);
      }
      ParseFormalsGuarantees(parent, formals[1..]);
      if ParseFormals(parent, formals).Parsed? {
        var fs, rest := ParseFormals(parent, formals).value, ParseFormals(parent, formals[1..]).value;
        assert fs == [fs[0]] + rest;
        assert forall f :: f in fs <==> f == fs[0] || f in rest;
      }
    }
  }

  lemma {:induction false} ParseNameGuarantees(n: Name<Syn>)
    ensures var r := ParseName(n); r.Parsed? ==> NameWf(r.value, false) && (NameWf(r.value, true) <==> !r.crossed)
    decreases n, 2, 0
  {
    if n.Dynamic? {
      ParseGuarantees(n.e);
    }
  }

  lemma {:induction false} ParseNamesGuarantees(parent: Binding, path: seq<Name<Syn>>)
    requires forall n :: n in path ==> n < parent
    ensures var r := ParseNames(parent, path);
      r.Parsed? ==> NamesWf(r.value, false) && (NamesWf(r.value, true) <==> !r.crossed)
    decreases parent, 0, |path|
  {
    if path != [] {
      assert path[0] in path && forall n :: n in path[1..] ==> n in path;
      ParseNameGuarantees(path[0]);
      ParseNamesGuarantees(parent, path[1..]);
      if ParseNames(parent, path).Parsed? {
        var first, rest := ParseName(path[0]).value, ParseNames(parent, path[1..]).value;
        assert forall n :: n in [first] + rest <==> n == first || n in rest;
      }
    }
  }

  lemma {:induction false} ParseBindGuarantees(b: Binding, acc: Expr)
    requires acc.Attrs? && SetWf(acc, false)
    ensures var r := ParseBind(b, acc); r.Parsed? ==> WfIff(r.value, SetWf(acc, true) && !r.crossed)
    decreases b, 2, 0
  {
    hide SetWf, Wf;
    match b
    case Define(prefix, last, x) =>
      ParseNamesGuarantees(b, prefix);
      ParseNameGuarantees(last);
      ParseGuarantees(x);
      if ParseBind(b, acc).Parsed? {
        AddPathWf(acc, ParseNames(b, prefix).value, ParseName(last).value, Parse(x).value);
      }
    case Inherit(vars) =>
      if AddInherited(acc, vars).Parsed? {
        AddInheritedWf(acc, vars);
      }
    case InheritFrom(x, names) =>
      ParseGuarantees(x);
      if ParseBind(b, acc).Parsed? {
        NewSourceWf(acc, Parse(x).value, names);
      }
  }

  lemma {:induction false} ParseBindsGuarantees(parent: Syn, binds: seq<Binding>, acc: Expr)
    requires acc.Attrs? && SetWf(acc, false) && forall b :: b in binds ==> b < parent
    ensures var r := ParseBinds(parent, binds, acc); r.Parsed? ==> WfIff(r.value, SetWf(acc, true) && !r.crossed)
    decreases parent, 0, |binds|
  {
    hide SetWf;
    if binds != [] {
      assert binds[0] in binds && forall b :: b in binds[1..] ==> b in binds;
      ParseBindGuarantees(binds[0], acc);
      if ParseBind(binds[0], acc).Parsed? {
        ParseBindsGuarantees(parent, binds[1..], ParseBind(binds[0], acc).value);
      }
    }
  }
}
