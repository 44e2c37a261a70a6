/** Definitions survive parsing: whatever is merged, following the path of a definition through
    the sets of the AST leads to what is defined there. */
module Paths {
  import opened Common
  import opened Syntax
  import opened Annotation
  import opened Parser
  import opened Merging

  /* Following a path */

  /** The definition of a name. */
  function Got(defs: seq<AttrDef>, name: Symbol): Option<AttrDef> {
    var j := Find(defs, name);
    if j.Some? then Some(defs[j.value]) else None
  }

  /** Neither a set, which may be merged with another, nor one name of an `inherit (from)`,
      whose source may move. */
  predicate Fixed(v: Expr) {
    !v.Attrs? && !(v.Select? && v.e.InheritFrom?)
  }

  /** Following the path through nested sets leads to `v`. */
  predicate Leads(e: Expr, path: seq<Symbol>, v: Expr)
    decreases |path|, 0
  {
    e.Attrs? && path != [] && Got(e.defs, path[0]).Some? && DefLeads(Got(e.defs, path[0]).value, path[1..], v)
  }

  predicate DefLeads(d: AttrDef, rest: seq<Symbol>, v: Expr)
    decreases |rest|, 1
  {
    if rest == [] then d.e == v && Fixed(v) else Leads(d.e, rest, v)
  }

  /* Adding and replacing definitions */

  lemma {:induction false} InsertGot(defs: seq<AttrDef>, d: AttrDef, name: Symbol)
    requires Find(defs, d.name).None?
    ensures Got(Insert(defs, d), name) == if name == d.name then Some(d) else Got(defs, name)
    decreases |defs|
  {
    if defs == [] || d.name < defs[0].name {
      assert ([d] + defs)[1..] == defs;
    } else {
      assert Find(defs[1..], d.name).None?;
      InsertGot(defs[1..], d, name);
      var rest := Insert(defs[1..], d);
      assert ([defs[0]] + rest)[1..] == rest;
    }
  }

  lemma {:induction false} ReplaceGot(defs: seq<AttrDef>, j: nat, d: AttrDef, name: Symbol)
    requires Find(defs, d.name) == Some(j)
    ensures Got(defs[j := d], name) == if name == d.name then Some(d) else Got(defs, name)
    decreases |defs|
  {
    if j == 0 {
      assert defs[j := d][1..] == defs[1..];
    } else {
      assert defs[j := d][1..] == defs[1..][j - 1 := d];
      ReplaceGot(defs[1..], j - 1, d, name);
    }
  }

  lemma {:induction false} AddNewLeads(acc: Expr, d: AttrDef, path: seq<Symbol>, v: Expr)
    requires acc.Attrs? && AddNew(acc, d).Parsed?
    ensures Leads(acc, path, v) ==> Leads(AddNew(acc, d).value, path, v)
    ensures path != [] && d.name == path[0] && DefLeads(d, path[1..], v) ==> Leads(AddNew(acc, d).value, path, v)
  {
    hide Find, Insert;
    if path != [] { InsertGot(acc.defs, d, path[0]); }
  }

  /** The set at a name is replaced by one that leads wherever it led. */
  lemma {:induction false} SetDefLeads(acc: Expr, j: nat, e: Expr, path: seq<Symbol>, v: Expr)
    requires acc.Attrs? && j < |acc.defs| && Find(acc.defs, acc.defs[j].name) == Some(j)
    requires acc.defs[j].e.Attrs? && path != []
    requires path[0] == acc.defs[j].name && Leads(acc.defs[j].e, path[1..], v) ==> Leads(e, path[1..], v)
    ensures Leads(acc, path, v) ==> Leads(SetDef(acc, j, e), path, v)
    ensures path[0] == acc.defs[j].name && path[1..] != [] && Leads(e, path[1..], v) ==>
              Leads(SetDef(acc, j, e), path, v)
  {
    hide Find;
    var d := acc.defs[j];
    ReplaceGot(acc.defs, j, d.(e := e), path[0]);
    if Leads(acc, path, v) && path[0] == d.name {
      assert Got(acc.defs, path[0]) == Some(d) && DefLeads(d, path[1..], v);
      assert path[1..] != [] && Leads(e, path[1..], v);
      assert DefLeads(d.(e := e), path[1..], v);
    }
  }

  lemma {:induction false} FindNames(defs: seq<AttrDef>, name: Symbol)
    requires Find(defs, name).Some?
    ensures Find(defs, defs[Find(defs, name).value].name) == Find(defs, name)
  {
  }

  /* Merging */

  lemma {:induction false} AddDefKeeps(acc: Expr, d: AttrDef, path: seq<Symbol>, v: Expr)
    requires acc.Attrs? && AddDef(acc, d).Parsed? && Leads(acc, path, v)
    ensures Leads(AddDef(acc, d).value, path, v)
    decreases d.e, 1, 0
  {
    hide Find, Leads, Insert;
    var j := Find(acc.defs, d.name);
    if j.Some? && d.e.Attrs? && acc.defs[j.value].e.Attrs? {
      var r := Merge(acc.defs[j.value].e, d.e);
      FindNames(acc.defs, d.name);
      LeadsSome(acc, path, v);
      if path[0] == d.name && Leads(acc.defs[j.value].e, path[1..], v) {
        MergeKeeps(acc.defs[j.value].e, d.e, path[1..], v);
      }
      SetDefLeads(acc, j.value, r.value, path, v);
    } else {
      AddNewLeads(acc, d, path, v);
    }
  }

  lemma LeadsSome(e: Expr, path: seq<Symbol>, v: Expr)
    requires Leads(e, path, v)
    ensures path != [] && e.Attrs?
  {
  }

  lemma {:induction false} MergeDefKeeps(acc: Expr, other: Expr, i: nat, path: seq<Symbol>, v: Expr)
    requires acc.Attrs? && other.Attrs? && i < |other.defs| && MergeDef(acc, other, i).Parsed? && Leads(acc, path, v)
    ensures Leads(MergeDef(acc, other, i).value, path, v)
    decreases other, 0, 0
  {
    hide Leads, AddNew, AddDef;
    var d := other.defs[i];
    if d.kind.InheritedFrom? {
      AddNewLeads(acc, Moved(other.defs, d, |acc.from|), path, v);
    } else {
      AddDefKeeps(acc, d, path, v);
    }
  }

  lemma {:induction false} MergeDefsKeeps(acc: Expr, other: Expr, i: nat, path: seq<Symbol>, v: Expr)
    requires acc.Attrs? && other.Attrs? && i <= |other.defs| && MergeDefs(acc, other, i).Parsed? && Leads(acc, path, v)
    ensures Leads(MergeDefs(acc, other, i).value, path, v)
    decreases other, 0, |other.defs| - i
  {
    hide Leads, MergeDef;
    if i < |other.defs| {
      MergeDefKeeps(acc, other, i, path, v);
      MergeDefsKeeps(MergeDef(acc, other, i).value, other, i + 1, path, v);
    }
  }

  lemma SameDefs(e: Expr, dyn: seq<DynAttr>, from: seq<Expr>, path: seq<Symbol>, v: Expr)
    requires e.Attrs?
    ensures Leads(WithFrom(WithDyn(e, dyn), from), path, v) <==> Leads(e, path, v)
    ensures Leads(WithFrom(e, from), path, v) <==> Leads(e, path, v)
    ensures Leads(WithDyn(e, dyn), path, v) <==> Leads(e, path, v)
  {
  }

  /** A merge leads wherever the first set led. */
  lemma {:induction false} MergeKeeps(acc: Expr, other: Expr, path: seq<Symbol>, v: Expr)
    requires acc.Attrs? && other.Attrs? && Merge(acc, other).Parsed? && Leads(acc, path, v)
    ensures Leads(Merge(acc, other).value, path, v)
    decreases other, 0, |other.defs| + 1
  {
    hide Leads, MergeDefs;
    MergeDefsKeeps(acc, other, 0, path, v);
    SameDefs(MergeDefs(acc, other, 0).value, acc.dyn + other.dyn, acc.from + other.from, path, v);
  }

  /** And wherever the second led. */
  lemma {:induction false} MergeBrings(acc: Expr, other: Expr, path: seq<Symbol>, v: Expr)
    requires acc.Attrs? && other.Attrs? && Merge(acc, other).Parsed? && Leads(other, path, v)
    ensures Leads(Merge(acc, other).value, path, v)
    decreases other, 0, |other.defs| + 1
  {
    hide MergeDefs;
    var j := Find(other.defs, path[0]).value;
    MergeDefsBrings(acc, other, 0, j, path, v);
    SameDefs(MergeDefs(acc, other, 0).value, acc.dyn + other.dyn, acc.from + other.from, path, v);
  }

  lemma {:induction false} MergeDefsBrings(acc: Expr, other: Expr, i: nat, j: nat, path: seq<Symbol>, v: Expr)
    requires acc.Attrs? && other.Attrs? && i <= j < |other.defs| && MergeDefs(acc, other, i).Parsed?
    requires path != [] && other.defs[j].name == path[0] && DefLeads(other.defs[j], path[1..], v)
    ensures Leads(MergeDefs(acc, other, i).value, path, v)
    decreases other, 0, |other.defs| - i
  {
    hide Leads, MergeDef, DefLeads;
    if i == j {
      MergeDefBrings(acc, other, i, path, v);
      MergeDefsKeeps(MergeDef(acc, other, i).value, other, i + 1, path, v);
    } else {
      MergeDefsBrings(MergeDef(acc, other, i).value, other, i + 1, j, path, v);
    }
  }

  lemma {:induction false} MergeDefBrings(acc: Expr, other: Expr, i: nat, path: seq<Symbol>, v: Expr)
    requires acc.Attrs? && other.Attrs? && i < |other.defs| && MergeDef(acc, other, i).Parsed?
    requires path != [] && other.defs[i].name == path[0] && DefLeads(other.defs[i], path[1..], v)
    ensures Leads(MergeDef(acc, other, i).value, path, v)
    decreases other, 0, 0
  {
    hide Leads, AddNew, AddDef;
    var d := other.defs[i];
    if d.kind.InheritedFrom? {
      assert Moved(other.defs, d, |acc.from|) == d by { NotMoved(other.defs, d, path[1..], v, |acc.from|); }
      AddNewLeads(acc, d, path, v);
    } else {
      AddDefBrings(acc, d, path, v);
    }
  }

  lemma NotMoved(defs: seq<AttrDef>, d: AttrDef, rest: seq<Symbol>, v: Expr, n: nat)
    requires DefLeads(d, rest, v)
    ensures Moved(defs, d, n) == d
  {
  }

  lemma {:induction false} AddDefBrings(acc: Expr, d: AttrDef, path: seq<Symbol>, v: Expr)
    requires acc.Attrs? && AddDef(acc, d).Parsed?
    requires path != [] && path[0] == d.name && DefLeads(d, path[1..], v)
    ensures Leads(AddDef(acc, d).value, path, v)
    decreases d.e, 1, 0
  {
    hide Find, Insert;
    var j := Find(acc.defs, d.name);
    if j.Some? && d.e.Attrs? && acc.defs[j.value].e.Attrs? {
      var r := Merge(acc.defs[j.value].e, d.e);
      FindNames(acc.defs, d.name);
      MergeBrings(acc.defs[j.value].e, d.e, path[1..], v);
      SetDefLeads(acc, j.value, r.value, path, v);
    } else {
      AddNewLeads(acc, d, path, v);
    }
  }

  /* Attribute paths */

  /** Entering the set at a name, or making one. */
  lemma {:induction false} EnterKeeps(acc: Expr, name: Symbol, nested: Expr, path: seq<Symbol>, v: Expr)
    requires acc.Attrs? && Leads(acc, path, v)
    requires var j := Find(acc.defs, name);
      j.Some? ==>
        acc.defs[j.value].e.Attrs? && (Leads(acc.defs[j.value].e, path[1..], v) ==> Leads(nested, path[1..], v))
    ensures Leads(Entered(acc, name, nested), path, v)
  {
    hide Find, Leads, Insert, SetDef;
    LeadsSome(acc, path, v);
    var j := Find(acc.defs, name);
    if j.None? {
      AddNewLeads(acc, AttrDef(name, Plain, nested), path, v);
    } else {
      FindNames(acc.defs, name);
      SetDefLeads(acc, j.value, nested, path, v);
    }
  }

  lemma {:induction false} EnterBrings(acc: Expr, name: Symbol, nested: Expr, path: seq<Symbol>, v: Expr)
    requires acc.Attrs? && |path| > 1 && path[0] == name && Leads(nested, path[1..], v)
    requires var j := Find(acc.defs, name); j.Some? ==> acc.defs[j.value].e.Attrs?
    ensures Leads(Entered(acc, name, nested), path, v)
  {
    hide Find, Leads, Insert, SetDef;
    var j := Find(acc.defs, name);
    if j.None? {
      AddNewLeads(acc, AttrDef(name, Plain, nested), path, v);
    } else {
      FindNames(acc.defs, name);
      SetDefLeads(acc, j.value, nested, path, v);
    }
  }

  function Entered(acc: Expr, name: Symbol, nested: Expr): Expr
    requires acc.Attrs?
  {
    var j := Find(acc.defs, name);
    if j.None? then WithDefs(acc, Insert(acc.defs, AttrDef(name, Plain, nested)))
    else SetDef(acc, j.value, nested)
  }

  /** The set that a static name on the way leads into. */
  function Inside(acc: Expr, name: Symbol): Expr
    requires acc.Attrs?
  {
    var j := Find(acc.defs, name);
    if j.None? then EMPTY_SET else acc.defs[j.value].e
  }

  lemma {:induction false} PathStep(acc: Expr, name: Symbol, prefix: seq<Name<Expr>>, last: Name<Expr>, e: Expr)
    requires acc.Attrs? && prefix != [] && prefix[0] == Static(name) && AddPath(acc, prefix, last, e).Parsed?
    ensures var inside := Inside(acc, name);
      && inside.Attrs? && AddPath(inside, prefix[1..], last, e).Parsed?
      && AddPath(acc, prefix, last, e).value == Entered(acc, name, AddPath(inside, prefix[1..], last, e).value)
  {
    hide Find, Insert, SetDef, AddDef;
  }

  lemma {:induction false} AddLastKeeps(acc: Expr, last: Name<Expr>, e: Expr, path: seq<Symbol>, v: Expr)
    requires acc.Attrs? && AddPath(acc, [], last, e).Parsed? && Leads(acc, path, v)
    ensures Leads(AddPath(acc, [], last, e).value, path, v)
  {
    hide Leads, AddDef;
    match last
    case Static(name) => AddDefKeeps(acc, AttrDef(name, Plain, e), path, v);
    case Dynamic(x) => SameDefs(acc, acc.dyn + [DynAttr(x, e)], [], path, v);
  }

  /** A dynamic name on the way leaves the definitions as they are. */
  lemma {:induction false} DynamicKeeps(
      acc: Expr, prefix: seq<Name<Expr>>, last: Name<Expr>, e: Expr, path: seq<Symbol>, v: Expr)
    requires acc.Attrs? && prefix != [] && prefix[0].Dynamic?
    requires AddPath(acc, prefix, last, e).Parsed? && Leads(acc, path, v)
    ensures Leads(AddPath(acc, prefix, last, e).value, path, v)
  {
    hide Leads, AddDef, Find;
    var nested := AddPath(EMPTY_SET, prefix[1..], last, e).value;
    SameDefs(acc, acc.dyn + [DynAttr(prefix[0].e, nested)], [], path, v);
  }

  lemma {:induction false} AddPathKeeps(
      acc: Expr, prefix: seq<Name<Expr>>, last: Name<Expr>, e: Expr, path: seq<Symbol>, v: Expr)
    requires acc.Attrs? && AddPath(acc, prefix, last, e).Parsed? && Leads(acc, path, v)
    ensures Leads(AddPath(acc, prefix, last, e).value, path, v)
    decreases |prefix|
  {
    hide Find, Leads, AddPath, Entered;
    LeadsSome(acc, path, v);
    if prefix == [] {
      AddLastKeeps(acc, last, e, path, v);
    } else if prefix[0].Dynamic? {
      DynamicKeeps(acc, prefix, last, e, path, v);
    } else {
      var name := prefix[0].name;
      PathStep(acc, name, prefix, last, e);
      var inside := Inside(acc, name);
      if Leads(inside, path[1..], v) {
        AddPathKeeps(inside, prefix[1..], last, e, path[1..], v);
      }
      EnterKeeps(acc, name, AddPath(inside, prefix[1..], last, e).value, path, v);
    }
  }

  /** The names of an attribute path, if all of them are static. */
  predicate Spells<E(==)>(prefix: seq<Name<E>>, last: Name<E>, names: seq<Symbol>) {
    && |names| == |prefix| + 1 && last == Static(names[|prefix|])
    && forall i :: 0 <= i < |prefix| ==> prefix[i] == Static(names[i])
  }

  /** A value, or a set that leads on. */
  predicate ValueLeads(e: Expr, rest: seq<Symbol>, v: Expr) {
    if rest == [] then e == v && Fixed(v) else Leads(e, rest, v)
  }

  lemma {:induction false} AddPathBrings(
      acc: Expr, prefix: seq<Name<Expr>>, last: Name<Expr>, e: Expr, names: seq<Symbol>, rest: seq<Symbol>, v: Expr)
    requires acc.Attrs? && AddPath(acc, prefix, last, e).Parsed?
    requires Spells(prefix, last, names) && ValueLeads(e, rest, v)
    ensures Leads(AddPath(acc, prefix, last, e).value, names + rest, v)
    decreases |prefix|
  {
    hide Find, Leads, Insert, AddDef, Entered;
    var path := names + rest;
    if prefix == [] {
      assert path[1..] == rest;
      AddDefBrings(acc, AttrDef(names[0], Plain, e), path, v);
    } else {
      PathStep(acc, names[0], prefix, last, e);
      hide AddPath;
      assert path[1..] == names[1..] + rest;
      assert Spells(prefix[1..], last, names[1..]);
      var inside := Inside(acc, names[0]);
      AddPathBrings(inside, prefix[1..], last, e, names[1..], rest, v);
      EnterBrings(acc, names[0], AddPath(inside, prefix[1..], last, e).value, path, v);
    }
  }

  lemma {:induction false} AddInheritedKeeps(acc: Expr, vars: seq<VarRef>, path: seq<Symbol>, v: Expr)
    requires acc.Attrs? && AddInherited(acc, vars).Parsed? && Leads(acc, path, v)
    ensures Leads(AddInherited(acc, vars).value, path, v)
    decreases |vars|
  {
    hide Leads, AddNew;
    if vars != [] {
      var d := AttrDef(vars[0].name, Inherited, Var(vars[0].id, vars[0].name));
      AddNewLeads(acc, d, path, v);
      AddInheritedKeeps(AddNew(acc, d).value, vars[1..], path, v);
    }
  }

  lemma {:induction false} AddInheritedBrings(acc: Expr, vars: seq<VarRef>, i: nat)
    requires acc.Attrs? && AddInherited(acc, vars).Parsed? && i < |vars|
    ensures Leads(AddInherited(acc, vars).value, [vars[i].name], Var(vars[i].id, vars[i].name))
    decreases |vars|
  {
    hide Leads, AddNew;
    var d := AttrDef(vars[0].name, Inherited, Var(vars[0].id, vars[0].name));
    if i == 0 {
      AddNewLeads(acc, d, [vars[0].name], d.e);
      AddInheritedKeeps(AddNew(acc, d).value, vars[1..], [vars[0].name], d.e);
    } else {
      AddInheritedBrings(AddNew(acc, d).value, vars[1..], i - 1);
    }
  }

  lemma {:induction false} AddFromKeeps(acc: Expr, source: nat, names: seq<Symbol>, path: seq<Symbol>, v: Expr)
    requires acc.Attrs? && AddFrom(acc, source, names).Parsed? && Leads(acc, path, v)
    ensures Leads(AddFrom(acc, source, names).value, path, v)
    decreases |names|
  {
    hide Leads, AddNew;
    if names != [] {
      var d := AttrDef(names[0], InheritedFrom, Select(Expr.InheritFrom(source, source), [names[0]], None));
      AddNewLeads(acc, d, path, v);
      AddFromKeeps(AddNew(acc, d).value, source, names[1..], path, v);
    }
  }

  lemma {:induction false} ParseBindKeeps(b: Binding, acc: Expr, path: seq<Symbol>, v: Expr)
    requires acc.Attrs? && ParseBind(b, acc).Parsed? && Leads(acc, path, v)
    ensures Leads(ParseBind(b, acc).value, path, v)
  {
    hide Leads, AddPath, AddInherited, AddFrom, Parse, ParseName, ParseNames;
    match b
    case Define(prefix, last, x) =>
      AddPathKeeps(acc, ParseNames(b, prefix).value, ParseName(last).value, Parse(x).value, path, v);
    case Inherit(vars) => AddInheritedKeeps(acc, vars, path, v);
    case InheritFrom(x, names) =>
      var from := acc.from + [Parse(x).value];
      SameDefs(acc, [], from, path, v);
      AddFromKeeps(WithFrom(acc, from), |acc.from|, names, path, v);
  }

  lemma {:induction false} ParseBindsKeeps(parent: Syn, binds: seq<Binding>, acc: Expr, path: seq<Symbol>, v: Expr)
    requires acc.Attrs? && (forall b :: b in binds ==> b < parent)
    requires ParseBinds(parent, binds, acc).Parsed? && Leads(acc, path, v)
    ensures Leads(ParseBinds(parent, binds, acc).value, path, v)
    decreases |binds|
  {
    hide Leads, ParseBind;
    if binds != [] {
      ParseBindKeeps(binds[0], acc, path, v);
      assert forall b :: b in binds[1..] ==> b in binds;
      ParseBindsKeeps(parent, binds[1..], ParseBind(binds[0], acc).value, path, v);
    }
  }

  /* The text */

  /** The bindings define `x` at the path: all of its names are static, and a set on the way is
      written out or, at its end, is not one. */
  ghost predicate Writes(binds: seq<Binding>, path: seq<Symbol>, x: Syn)
    decreases binds
  {
    exists i :: 0 <= i < |binds| && BindWrites(binds[i], path, x)
  }

  ghost predicate BindWrites(b: Binding, path: seq<Symbol>, x: Syn)
    decreases b
  {
    match b
    case Define(prefix, last, e) =>
      && |path| > |prefix| && Spells(prefix, last, path[..|prefix| + 1])
      && var rest := path[|prefix| + 1..];
         if rest == [] then e == x && !x.SSet? else e.SSet? && Writes(e.binds, rest, x)
    case Inherit(vars) => exists j :: 0 <= j < |vars| && path == [vars[j].name] && x == SVar(vars[j].id, vars[j].name)
    case InheritFrom(_, _) => false
  }

  lemma {:induction false} NotASource(x: Syn)
    requires Parse(x).Parsed?
    ensures !Parse(x).value.InheritFrom?
  {
    hide ParseAll, ParseFormals, ParseBinds, Validate;
    match x
    case SSet(recursive, binds) => assert ParseBinds(x, binds, Attrs(recursive, [], [], [])).Parsed?;
    case _ =>
  }

  lemma {:induction false} FixedOrSet(x: Syn)
    requires Parse(x).Parsed? && !x.SSet?
    ensures Fixed(Parse(x).value)
  {
    hide ParseFormals, ParseBinds, Validate;
    if x.SSelect? {
      NotASource(x.e);
    }
  }

  lemma {:induction false} NamesParse(parent: Binding, prefix: seq<Name<Syn>>, last: Name<Syn>, names: seq<Symbol>)
    requires (forall n :: n in prefix ==> n < parent) && Spells(prefix, last, names)
    ensures ParseNames(parent, prefix).Parsed? && ParseName(last).Parsed?
    ensures Spells(ParseNames(parent, prefix).value, ParseName(last).value, names)
    decreases |prefix|
  {
    if prefix != [] {
      assert forall n :: n in prefix[1..] ==> n in prefix;
      assert Spells(prefix[1..], last, names[1..]);
      NamesParse(parent, prefix[1..], last, names[1..]);
    }
  }

  lemma {:induction false} BindLeads(b: Binding, acc: Expr, path: seq<Symbol>, x: Syn)
    requires acc.Attrs? && ParseBind(b, acc).Parsed? && BindWrites(b, path, x)
    ensures Parse(x).Parsed? && Leads(ParseBind(b, acc).value, path, Parse(x).value)
    decreases b, 0
  {
    hide Leads, AddPath, AddInherited, Parse, ParseName, ParseNames, Writes;
    match b
    case Define(prefix, last, e) =>
      var names, rest := path[..|prefix| + 1], path[|prefix| + 1..];
      NamesParse(b, prefix, last, names);
      assert path == names + rest;
      if rest == [] {
        FixedOrSet(x);
      } else {
        SetLeads(e, rest, x);
      }
      AddPathBrings(acc, ParseNames(b, prefix).value, ParseName(last).value, Parse(e).value, names, rest,
        Parse(x).value);
    case Inherit(vars) =>
      var j :| 0 <= j < |vars| && path == [vars[j].name] && x == SVar(vars[j].id, vars[j].name);
      AddInheritedBrings(acc, vars, j);
      VarParses(vars[j]);
  }

  lemma VarParses(r: VarRef)
    ensures Parse(SVar(r.id, r.name)) == Parsed(Var(r.id, r.name), false)
  {
  }

  lemma {:induction false} BindsLead(parent: Syn, binds: seq<Binding>, acc: Expr, i: nat, path: seq<Symbol>, x: Syn)
    requires acc.Attrs? && (forall b :: b in binds ==> b < parent) && ParseBinds(parent, binds, acc).Parsed?
    requires i < |binds| && BindWrites(binds[i], path, x)
    ensures Parse(x).Parsed? && Leads(ParseBinds(parent, binds, acc).value, path, Parse(x).value)
    decreases parent, 0, |binds|
  {
    hide Leads, ParseBind, BindWrites, Parse;
    assert forall b :: b in binds[1..] ==> b in binds;
    assert binds[0] in binds;
    if i == 0 {
      BindLeads(binds[0], acc, path, x);
      ParseBindsKeeps(parent, binds[1..], ParseBind(binds[0], acc).value, path, Parse(x).value);
    } else {
      BindsLead(parent, binds[1..], ParseBind(binds[0], acc).value, i - 1, path, x);
    }
  }

  /** Whatever a set defines at a path is found there in the AST of the set. */
  lemma {:induction false} SetLeads(s: Syn, path: seq<Symbol>, x: Syn)
    requires s.SSet? && Parse(s).Parsed? && Writes(s.binds, path, x)
    ensures Parse(x).Parsed? && Leads(Parse(s).value, path, Parse(x).value)
    decreases s, 1
  {
    hide Leads, ParseBinds, BindWrites;
    var i :| 0 <= i < |s.binds| && BindWrites(s.binds[i], path, x);
    BindsLead(s, s.binds, Attrs(s.recursive, [], [], []), i, path, x);
  }

  /** And so it is with the definitions of a `let`. */
  lemma {:induction false} LetLeads(s: Syn, path: seq<Symbol>, x: Syn)
    requires s.SLet? && Parse(s).Parsed? && Writes(s.binds, path, x)
    ensures Parse(x).Parsed? && Parse(s).value.Let?
    ensures Leads(Attrs(false, Parse(s).value.defs, Parse(s).value.from, []), path, Parse(x).value)
  {
    hide Leads, ParseBinds, BindWrites;
    var i :| 0 <= i < |s.binds| && BindWrites(s.binds[i], path, x);
    BindsLead(s, s.binds, EMPTY_SET, i, path, x);
    var acc := ParseBinds(s, s.binds, EMPTY_SET).value;
    SameDefs(acc, [], acc.from, path, Parse(x).value);
    SetOf(acc, false, path, Parse(x).value);
  }

  lemma SetOf(e: Expr, recursive: bool, path: seq<Symbol>, v: Expr)
    requires Leads(e, path, v)
    ensures Leads(Attrs(recursive, e.defs, e.from, []), path, v)
  {
  }

  /* `rec`, `@` and formals */

  lemma {:induction false} InheritedRec(acc: Expr, vars: seq<VarRef>)
    requires acc.Attrs? && AddInherited(acc, vars).Parsed?
    ensures AddInherited(acc, vars).value.recursive == acc.recursive
    decreases |vars|
  {
    if vars != [] {
      InheritedRec(AddNew(acc, AttrDef(vars[0].name, Inherited, Var(vars[0].id, vars[0].name))).value, vars[1..]);
    }
  }

  lemma {:induction false} FromRec(acc: Expr, source: nat, names: seq<Symbol>)
    requires acc.Attrs? && AddFrom(acc, source, names).Parsed?
    ensures AddFrom(acc, source, names).value.recursive == acc.recursive
    decreases |names|
  {
    if names != [] {
      var x := Select(Expr.InheritFrom(source, source), [names[0]], None);
      FromRec(AddNew(acc, AttrDef(names[0], InheritedFrom, x)).value, source, names[1..]);
    }
  }

  lemma {:induction false} BindRec(b: Binding, acc: Expr)
    requires acc.Attrs? && ParseBind(b, acc).Parsed?
    ensures ParseBind(b, acc).value.recursive == acc.recursive
  {
    hide Parse, ParseName, ParseNames, Merge;
    match b
    case Define(_, _, _) =>
    case Inherit(vars) => InheritedRec(acc, vars);
    case InheritFrom(x, names) => FromRec(WithFrom(acc, acc.from + [Parse(x).value]), |acc.from|, names);
  }

  lemma {:induction false} BindsRec(parent: Syn, binds: seq<Binding>, acc: Expr)
    requires acc.Attrs? && (forall b :: b in binds ==> b < parent) && ParseBinds(parent, binds, acc).Parsed?
    ensures ParseBinds(parent, binds, acc).value.recursive == acc.recursive
    decreases |binds|
  {
    hide ParseBind;
    if binds != [] {
      BindRec(binds[0], acc);
      assert forall b :: b in binds[1..] ==> b in binds;
      BindsRec(parent, binds[1..], ParseBind(binds[0], acc).value);
    }
  }

  /** A set is recursive exactly if it is written so. */
  lemma {:induction false} RecSurvives(s: Syn)
    requires s.SSet? && Parse(s).Parsed?
    ensures Parse(s).value.Attrs? && Parse(s).value.recursive == s.recursive
  {
    hide ParseBinds;
    BindsRec(s, s.binds, Attrs(s.recursive, [], [], []));
  }

  /** The formal has the name and the default that are written. */
  predicate FormalOf(f: Formal, g: SynFormal) {
    f.name == g.name &&
    match g.def
    case None => f.def.None?
    case Some(x) => Parse(x).Parsed? && f.def == Some(Parse(x).value)
  }

  lemma {:induction false} FormalsParse(parent: Syn, formals: seq<SynFormal>)
    requires (forall f :: f in formals && f.def.Some? ==> f.def.value < parent) && ParseFormals(parent, formals).Parsed?
    ensures var fs := ParseFormals(parent, formals).value;
      |fs| == |formals| && forall i :: 0 <= i < |fs| ==> FormalOf(fs[i], formals[i])
    decreases |formals|
  {
    hide Parse;
    if formals != [] {
      FormalsParse(parent, formals[1..]);
      var fs, rest := ParseFormals(parent, formals).value, ParseFormals(parent, formals[1..]).value;
      assert fs[1..] == rest;
      forall i | 0 < i < |fs|
        ensures FormalOf(fs[i], formals[i])
      {
        assert fs[i] == rest[i - 1] && formals[i] == formals[1..][i - 1];
      }
    }
  }

  /** A lambda takes what is written: its argument or `@` name, its formals with their defaults,
      and whether other attributes are allowed. */
  lemma {:induction false} ParamsSurvive(s: Syn)
    requires s.SLambda? && Parse(s).Parsed?
    ensures var e := Parse(s).value;
      && e.Lambda?
      && match s.params
         case PlainParam(arg) => e.arg == Some(arg) && e.formals.None?
         case SetParams(formals, ellipsis, at) =>
           && e.arg == at && e.formals.Some? && e.formals.value.ellipsis == ellipsis
           && (forall g :: g in formals ==> exists f :: f in e.formals.value.formals && FormalOf(f, g))
           && (forall f :: f in e.formals.value.formals ==> exists g :: g in formals && FormalOf(f, g))
  {
    if s.params.SetParams? {
      hide Parse, ParseFormals, FormalOf;
      var formals := s.params.formals;
      ParamsParse(s);
      var fs, valid := ParseFormals(s, formals).value, Parse(s).value.formals.value.formals;
      FormalsParse(s, formals);
      forall g | g in formals
        ensures exists f :: f in valid && FormalOf(f, g)
      {
        var i :| 0 <= i < |formals| && formals[i] == g;
        assert fs[i] in fs && FormalOf(fs[i], g);
      }
      forall f | f in valid
        ensures exists g :: g in formals && FormalOf(f, g)
      {
        var i :| 0 <= i < |fs| && fs[i] == f;
        assert formals[i] in formals && FormalOf(f, formals[i]);
      }
    }
  }

  lemma {:induction false} ParamsParse(s: Syn)
    requires s.SLambda? && s.params.SetParams? && Parse(s).Parsed?
    ensures var e := Parse(s).value;
      && e.Lambda? && e.arg == s.params.at && e.formals.Some? && e.formals.value.ellipsis == s.params.ellipsis
      && ParseFormals(s, s.params.formals).Parsed?
      && forall f :: f in e.formals.value.formals <==> f in ParseFormals(s, s.params.formals).value
  {
    hide ParseFormals, Validate;
    var fs := ParseFormals(s, s.params.formals).value;
    ValidateWf(fs, s.params.ellipsis, s.params.at);
  }
}
