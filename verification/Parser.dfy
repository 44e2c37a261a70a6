/** Sets as the parser builds them: attribute paths, the three kinds of definition, and the
    merge of a set into an earlier definition of the same name. */
module Parser {
  import opened Common
  import opened StaticVars
  import opened Syntax
  import opened Binder
  import opened Annotation

  /* What is written */

  datatype Name<+E> = Static(name: Symbol) | Dynamic(e: E)

  /** `inherit` makes a variable of every name. */
  datatype VarRef = VarRef(id: NodeId, name: Symbol)

  datatype Binding =
    | Define(prefix: seq<Name<Syn>>, last: Name<Syn>, e: Syn)
    | Inherit(vars: seq<VarRef>)
    | InheritFrom(source: Syn, names: seq<Symbol>)

  datatype SynFormal = SynFormal(name: Symbol, def: Option<Syn>)

  datatype Params =
    | PlainParam(arg: Symbol)
    | SetParams(formals: seq<SynFormal>, ellipsis: bool, at: Option<Symbol>)

  datatype Syn =
    | SInt(n: int)
    | SStr(s: Symbol)
    | SNull
    | SVar(id: NodeId, name: Symbol)
    | SSelect(e: Syn, path: seq<Symbol>, def: Option<Syn>)
    | SSet(recursive: bool, binds: seq<Binding>)
    | SList(elems: seq<Syn>)
    | SLambda(params: Params, body: Syn)
    | SCall(fun: Syn, args: seq<Syn>)
    | SLet(binds: seq<Binding>, body: Syn)
    | SWith(id: NodeId, attrs: Syn, body: Syn)
    | SIf(cond: Syn, thn: Syn, els: Syn)

  datatype ParseError =
    | AlreadyDefined(name: Symbol)
    | DynamicInLet
    | DuplicateFormal(name: Symbol)

  /** `crossed`: on the way, an `inherit (from)` of several names came into a set that already
      had sources. */
  datatype Result<+T> = Parsed(value: T, crossed: bool) | Rejected(error: ParseError) {
    predicate IsFailure() {
      Rejected?
    }

    function PropagateFailure<U>(): Result<U>
      requires Rejected?
    {
      Rejected(error)
    }

    function Extract(): (T, bool)
      requires Parsed?
    {
      (value, crossed)
    }
  }

  /* Sets under construction */

  const EMPTY_SET := Attrs(false, [], [], [])

  function Find(defs: seq<AttrDef>, name: Symbol): (r: Option<nat>)
    ensures r.Some? ==> r.value < |defs| && defs[r.value].name == name
    ensures r.None? ==> forall d :: d in defs ==> d.name != name
  {
    if defs == [] then None
    else if defs[0].name == name then Some(0)
    else
      var rest := Find(defs[1..], name);
      if rest.Some? then Some(rest.value + 1) else None
  }

  /** The map keeps definitions ordered by symbol. */
  function Insert(defs: seq<AttrDef>, d: AttrDef): seq<AttrDef> {
    if defs == [] || d.name < defs[0].name then [d] + defs else [defs[0]] + Insert(defs[1..], d)
  }

  function WithDefs(acc: Expr, defs: seq<AttrDef>): (r: Expr)
    requires acc.Attrs?
    ensures r.Attrs?
  {
    Attrs(acc.recursive, defs, acc.from, acc.dyn)
  }

  function WithDyn(acc: Expr, dyn: seq<DynAttr>): (r: Expr)
    requires acc.Attrs?
    ensures r.Attrs?
  {
    Attrs(acc.recursive, acc.defs, acc.from, dyn)
  }

  function WithFrom(acc: Expr, from: seq<Expr>): (r: Expr)
    requires acc.Attrs?
    ensures r.Attrs?
  {
    Attrs(acc.recursive, acc.defs, from, acc.dyn)
  }

  function SetDef(acc: Expr, j: nat, e: Expr): (r: Expr)
    requires acc.Attrs? && j < |acc.defs|
    ensures r.Attrs?
  {
    WithDefs(acc, acc.defs[j := acc.defs[j].(e := e)])
  }

  function AddNew(acc: Expr, d: AttrDef): (r: Result<Expr>)
    requires acc.Attrs?
    ensures r.Parsed? ==> r.value.Attrs?
  {
    if Find(acc.defs, d.name).Some? then Rejected(AlreadyDefined(d.name))
    else Parsed(WithDefs(acc, Insert(acc.defs, d)), false)
  }

  predicate FromSource(d: AttrDef, source: nat) {
    d.kind.InheritedFrom? && SelectsSource(d) && d.e.e.own == source
  }

  /** How many names share the node of a source. */
  function GroupSize(defs: seq<AttrDef>, source: nat): nat {
    if defs == [] then 0
    else (if FromSource(defs[0], source) then 1 else 0) + GroupSize(defs[1..], source)
  }

  predicate OneNameEach(defs: seq<AttrDef>) {
    forall d | d in defs :: d.kind.InheritedFrom? && SelectsSource(d) ==> GroupSize(defs, d.e.e.own) <= 1
  }

  /** A definition of `defs` after its set has been merged into one with `n` sources: its
      source is `n` places further on, and its node has been moved once for each name. */
  function Moved(defs: seq<AttrDef>, d: AttrDef, n: nat): AttrDef {
    if d.kind.InheritedFrom? && SelectsSource(d) then
      var node := d.e.e;
      d.(e := d.e.(e := Expr.InheritFrom(node.displ + GroupSize(defs, node.own) * n, node.own + n)))
    else d
  }

  /** `addAttr` of one definition: two sets are merged, any other second definition is refused. */
  function AddDef(acc: Expr, d: AttrDef): (r: Result<Expr>)
    requires acc.Attrs?
    ensures r.Parsed? ==> r.value.Attrs?
    decreases d.e, 1, 0
  {
    var j := Find(acc.defs, d.name);
    if j.Some? && d.e.Attrs? && acc.defs[j.value].e.Attrs? then
      var (e, crossed) :- Merge(acc.defs[j.value].e, d.e);
      Parsed(SetDef(acc, j.value, e), crossed)
    else AddNew(acc, d)
  }

  /** The definitions of a set go to the earlier one, then its dynamic attributes, then its
      sources. Whether it was recursive is forgotten. */
  function Merge(acc: Expr, other: Expr): (r: Result<Expr>)
    requires acc.Attrs? && other.Attrs?
    ensures r.Parsed? ==> r.value.Attrs?
    decreases other, 0, |other.defs| + 1
  {
    var (e, crossed) :- MergeDefs(acc, other, 0);
    Parsed(WithFrom(WithDyn(e, acc.dyn + other.dyn), acc.from + other.from),
           crossed || (acc.from != [] && !OneNameEach(other.defs)))
  }

  /** From definition `i` on. */
  function MergeDefs(acc: Expr, other: Expr, i: nat): (r: Result<Expr>)
    requires acc.Attrs? && other.Attrs? && i <= |other.defs|
    ensures r.Parsed? ==> r.value.Attrs?
    decreases other, 0, |other.defs| - i
  {
    if i == |other.defs| then Parsed(acc, false)
    else
      var (e, c1) :- MergeDef(acc, other, i);
      var (e', c2) :- MergeDefs(e, other, i + 1);
      Parsed(e', c1 || c2)
  }

  function MergeDef(acc: Expr, other: Expr, i: nat): (r: Result<Expr>)
    requires acc.Attrs? && other.Attrs? && i < |other.defs|
    ensures r.Parsed? ==> r.value.Attrs?
    decreases other, 0, 0
  {
    var d := other.defs[i];
    if d.kind.InheritedFrom? then AddNew(acc, Moved(other.defs, d, |acc.from|)) else AddDef(acc, d)
  }

  /** `addAttr` of an attribute path: sets on the way are entered, or made where there is none. */
  function AddPath(acc: Expr, prefix: seq<Name<Expr>>, last: Name<Expr>, e: Expr): (r: Result<Expr>)
    requires acc.Attrs?
    ensures r.Parsed? ==> r.value.Attrs?
    decreases |prefix|
  {
    if prefix == [] then
      match last
      case Static(name) => AddDef(acc, AttrDef(name, Plain, e))
      case Dynamic(x) => Parsed(WithDyn(acc, acc.dyn + [DynAttr(x, e)]), false)
    else
      match prefix[0]
      case Static(name) =>
        var j := Find(acc.defs, name);
        if j.None? then
          var (nested, crossed) :- AddPath(EMPTY_SET, prefix[1..], last, e);
          Parsed(WithDefs(acc, Insert(acc.defs, AttrDef(name, Plain, nested))), crossed)
        else if !acc.defs[j.value].e.Attrs? then Rejected(AlreadyDefined(name))
        else
          var (nested, crossed) :- AddPath(acc.defs[j.value].e, prefix[1..], last, e);
          Parsed(SetDef(acc, j.value, nested), crossed)
      case Dynamic(x) =>
        var (nested, crossed) :- AddPath(EMPTY_SET, prefix[1..], last, e);
        Parsed(WithDyn(acc, acc.dyn + [DynAttr(x, nested)]), crossed)
  }

  /** `inherit`. */
  function AddInherited(acc: Expr, vars: seq<VarRef>): (r: Result<Expr>)
    requires acc.Attrs?
    ensures r.Parsed? ==> r.value.Attrs?
    decreases |vars|
  {
    if vars == [] then Parsed(acc, false)
    else
      var (e, _) :- AddNew(acc, AttrDef(vars[0].name, Inherited, Var(vars[0].id, vars[0].name)));
      AddInherited(e, vars[1..])
  }

  /** The names of the `inherit (from)` whose source is number `source`. */
  function AddFrom(acc: Expr, source: nat, names: seq<Symbol>): (r: Result<Expr>)
    requires acc.Attrs?
    ensures r.Parsed? ==> r.value.Attrs?
    decreases |names|
  {
    if names == [] then Parsed(acc, false)
    else
      var x := Select(Expr.InheritFrom(source, source), [names[0]], None);
      var (e, _) :- AddNew(acc, AttrDef(names[0], InheritedFrom, x));
      AddFrom(e, source, names[1..])
  }

  /* Formals */

  function InsertFormal(fs: seq<Formal>, f: Formal): seq<Formal> {
    if fs == [] || f.name < fs[0].name then [f] + fs else [fs[0]] + InsertFormal(fs[1..], f)
  }

  function SortFormals(fs: seq<Formal>): seq<Formal> {
    if fs == [] then [] else InsertFormal(SortFormals(fs[..|fs| - 1]), fs[|fs| - 1])
  }

  /** The least name that occurs twice in a sorted list. */
  function Repeated(fs: seq<Formal>): Option<Symbol> {
    if |fs| < 2 then None
    else if fs[0].name == fs[1].name then Some(fs[0].name)
    else Repeated(fs[1..])
  }

  /** `validateFormals`. */
  function Validate(fs: seq<Formal>, ellipsis: bool, at: Option<Symbol>): Result<Formals> {
    var sorted := SortFormals(fs);
    var twice := Repeated(sorted);
    if twice.Some? then Rejected(DuplicateFormal(twice.value))
    else if at.Some? && exists f | f in sorted :: f.name == at.value then Rejected(DuplicateFormal(at.value))
    else Parsed(Formals(sorted, ellipsis), false)
  }

  /* Expressions */

  function Parse(s: Syn): (r: Result<Expr>)
    decreases s, 1, 0
  {
    match s
    case SInt(n) => Parsed(Int(n), false)
    case SStr(x) => Parsed(Str(x), false)
    case SNull => Parsed(Null, false)
    case SVar(id, name) => Parsed(Var(id, name), false)
    case SSelect(x, path, def) =>
      var (es, crossed) :- ParseAll(s, if def.Some? then [x, def.value] else [x]);
      Parsed(Select(es[0], path, if def.Some? then Some(es[1]) else None), crossed)
    case SSet(recursive, binds) =>
      ParseBinds(s, binds, Attrs(recursive, [], [], []))
    case SList(elems) =>
      var (es, crossed) :- ParseAll(s, elems);
      Parsed(List(es), crossed)
    case SLambda(PlainParam(arg), body) =>
      var (e, crossed) :- Parse(body);
      Parsed(Lambda(Some(arg), None, e), crossed)
    case SLambda(SetParams(formals, ellipsis, at), body) =>
      var (fs, c1) :- ParseFormals(s, formals);
      var (e, c2) :- Parse(body);
      var (valid, _) :- Validate(fs, ellipsis, at);
      Parsed(Lambda(at, Some(valid), e), c1 || c2)
    case SCall(fun, args) =>
      var (es, crossed) :- ParseAll(s, [fun] + args);
      Parsed(Call(es[0], es[1..]), crossed)
    case SLet(binds, body) =>
      var (acc, c1) :- ParseBinds(s, binds, EMPTY_SET);
      var (e, c2) :- Parse(body);
      if acc.dyn != [] then Rejected(DynamicInLet)
      else Parsed(Let(acc.defs, acc.from, e), c1 || c2)
    case SWith(id, attrs, body) =>
      var (es, crossed) :- ParseAll(s, [attrs, body]);
      Parsed(With(id, es[0], es[1]), crossed)
    case SIf(cond, thn, els) =>
      var (es, crossed) :- ParseAll(s, [cond, thn, els]);
      Parsed(If(es[0], es[1], es[2]), crossed)
  }

  function ParseAll(parent: Syn, es: seq<Syn>): (r: Result<seq<Expr>>)
    requires forall x :: x in es ==> x < parent
    ensures r.Parsed? ==> |r.value| == |es|
    decreases parent, 0, |es|
  {
    if es == [] then Parsed([], false)
    else
      assert es[0] in es && forall x :: x in es[1..] ==> x in es;
      var (first, c1) :- Parse(es[0]);
      var (rest, c2) :- ParseAll(parent, es[1..]);
      Parsed([first] + rest, c1 || c2)
  }

  function ParseFormals(parent: Syn, formals: seq<SynFormal>): (r: Result<seq<Formal>>)
    requires forall f :: f in formals && f.def.Some? ==> f.def.value < parent
    decreases parent, 0, |formals|
  {
    if formals == [] then Parsed([], false)
    else if formals[0].def.None? then
      var (rest, crossed) :- ParseFormals(parent, formals[1..]);
      Parsed([Formal(formals[0].name, None)] + rest, crossed)
    else
      var (first, c1) :- Parse(formals[0].def.value);
      var (rest, c2) :- ParseFormals(parent, formals[1..]);
      Parsed([Formal(formals[0].name, Some(first))] + rest, c1 || c2)
  }

  function ParseName(n: Name<Syn>): (r: Result<Name<Expr>>)
    decreases n, 2, 0
  {
    match n
    case Static(name) => Parsed(Static(name), false)
    case Dynamic(x) =>
      var (e, crossed) :- Parse(x);
      Parsed(Dynamic(e), crossed)
  }

  function ParseNames(parent: Binding, path: seq<Name<Syn>>): (r: Result<seq<Name<Expr>>>)
    requires forall n :: n in path ==> n < parent
    decreases parent, 0, |path|
  {
    if path == [] then Parsed([], false)
    else
      assert path[0] in path && forall n :: n in path[1..] ==> n in path;
      var (first, c1) :- ParseName(path[0]);
      var (rest, c2) :- ParseNames(parent, path[1..]);
      Parsed([first] + rest, c1 || c2)
  }

  /** One definition of a set or `let`. */
  function ParseBind(b: Binding, acc: Expr): (r: Result<Expr>)
    requires acc.Attrs?
    ensures r.Parsed? ==> r.value.Attrs?
    decreases b, 2, 0
  {
    match b
    case Define(prefix, last, x) =>
      var (names, c1) :- ParseNames(b, prefix);
      var (name, c2) :- ParseName(last);
      var (e, c3) :- Parse(x);
      var (r, c4) :- AddPath(acc, names, name, e);
      Parsed(r, c1 || c2 || c3 || c4)
    case Inherit(vars) => AddInherited(acc, vars)
    case InheritFrom(x, names) =>
      var (e, crossed) :- Parse(x);
      var (r, _) :- AddFrom(WithFrom(acc, acc.from + [e]), |acc.from|, names);
      Parsed(r, crossed)
  }

  function ParseBinds(parent: Syn, binds: seq<Binding>, acc: Expr): (r: Result<Expr>)
    requires acc.Attrs? && forall b :: b in binds ==> b < parent
    ensures r.Parsed? ==> r.value.Attrs?
    decreases parent, 0, |binds|
  {
    if binds == [] then Parsed(acc, false)
    else
      assert binds[0] in binds && forall b :: b in binds[1..] ==> b in binds;
      var (e, c1) :- ParseBind(binds[0], acc);
      var (r, c2) :- ParseBinds(parent, binds[1..], e);
      Parsed(r, c1 || c2)
  }
}
