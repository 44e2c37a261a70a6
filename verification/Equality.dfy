/** Equality of values: `eqValues`, and `assertEqValues`, which explains the differences
    `eqValues` finds and must agree with it. Both force what they compare, and what they
    force may throw. */
module Equality {
  import opened Common
  import opened Outcomes

  /** A double: a number, or one of the values that compare unlike numbers. */
  datatype Double = NaN | Num(x: real)

  datatype Value =
    | Null
    | Bool(b: bool)
    | Int(n: int)
    | Float(d: Double)
    | Str(s: Bytes)
    | Path(accessor: nat, s: Bytes)
    | List(elems: seq<Cell>)
    | Attrs(attrs: seq<Attr>)
    | Function(id: nat)
    /** No value: forcing the cell throws. */
    | Failing(error: Exception)

  /** A value where it lives in memory: equality looks at addresses first. */
  datatype Cell = Cell(addr: nat, v: Value)

  /** One attribute. A set holds its attributes in strictly increasing order of symbol. */
  datatype Attr = Attr(name: Symbol, cell: Cell)

  /** "derivation" */
  const DERIVATION: Bytes := [100, 101, 114, 105, 118, 97, 116, 105, 111, 110]

  ghost predicate SortedAttrs(xs: seq<Attr>) {
    forall i, j :: 0 <= i < j < |xs| ==> xs[i].name < xs[j].name
  }

  /** Attribute lists are sorted, at every depth. */
  ghost predicate Wf(v: Value) {
    match v
    case List(xs) => forall i :: 0 <= i < |xs| ==> Wf(xs[i].v)
    case Attrs(xs) => SortedAttrs(xs) && forall i :: 0 <= i < |xs| ==> Wf(xs[i].cell.v)
    case _ => true
  }

  function Get(xs: seq<Attr>, name: Symbol): (r: Option<Cell>)
    ensures r.Some? ==> exists i :: 0 <= i < |xs| && xs[i] == Attr(name, r.value)
    ensures r.None? ==> forall i :: 0 <= i < |xs| ==> xs[i].name != name
  {
    if xs == [] then None
    else if xs[0].name == name then Some(xs[0].cell)
    else
      var r := Get(xs[1..], name);
      assert r.Some? ==> exists i :: 0 <= i < |xs[1..]| && xs[1..][i] == xs[i + 1] == Attr(name, r.value);
      assert r.None? ==> forall i :: 0 < i < |xs| ==> xs[i] == xs[1..][i - 1];
      r
  }

  lemma GetAt(xs: seq<Attr>, i: nat)
    requires SortedAttrs(xs) && i < |xs|
    ensures Get(xs, xs[i].name) == Some(xs[i].cell)
  {
    var r := Get(xs, xs[i].name);
    if r.Some? {
      var k :| 0 <= k < |xs| && xs[k] == Attr(xs[i].name, r.value);
      assert k == i;
    }
  }

  predicate IsDerivation(xs: seq<Attr>) {
    Get(xs, TYPE).Some? && Get(xs, TYPE).value.v == Str(DERIVATION)
  }

  /** A derivation that names its output path; two of these compare by it alone. */
  predicate IsPackage(xs: seq<Attr>) {
    IsDerivation(xs) && Get(xs, OUT_PATH).Some?
  }

  predicate SameDouble(x: Double, y: Double) {
    x.Num? && y.Num? && x.x == y.x
  }

  /* Equality without addresses: the reference */

  /** What equality means when no two values share a cell. */
  ghost predicate Same(v: Value, w: Value)
    decreases v
  {
    match (v, w)
    case (Null, Null) => true
    case (Bool(x), Bool(y)) => x == y
    case (Int(x), Int(y)) => x == y
    case (Int(x), Float(y)) => SameDouble(Num(x as real), y)
    case (Float(x), Int(y)) => SameDouble(x, Num(y as real))
    case (Float(x), Float(y)) => SameDouble(x, y)
    case (Str(x), Str(y)) => x == y
    case (Path(a, x), Path(b, y)) => a == b && x == y
    case (List(xs), List(ys)) =>
      |xs| == |ys| && forall i :: 0 <= i < |xs| ==> Same(xs[i].v, ys[i].v)
    case (Attrs(xs), Attrs(ys)) =>
      if IsPackage(xs) && IsPackage(ys) then
        PartSmaller(xs, OUT_PATH, v);
        Same(Get(xs, OUT_PATH).value.v, Get(ys, OUT_PATH).value.v)
      else
        |xs| == |ys| && forall i :: 0 <= i < |xs| ==> xs[i].name == ys[i].name && Same(xs[i].cell.v, ys[i].cell.v)
    case _ => false
  }

  lemma PartSmaller(xs: seq<Attr>, name: Symbol, v: Value)
    requires Get(xs, name).Some? && v == Attrs(xs)
    ensures Get(xs, name).value < v && Get(xs, name).value.v < v
  {
    var i :| 0 <= i < |xs| && xs[i] == Attr(name, Get(xs, name).value);
    assert xs[i] < v;
  }

  /** Data: no functions, no floats and nothing that throws, at any depth. */
  ghost predicate Plain(v: Value) {
    match v
    case Function(_) => false
    case Failing(_) => false
    case Float(_) => false
    case List(xs) => forall i :: 0 <= i < |xs| ==> Plain(xs[i].v)
    case Attrs(xs) => forall i :: 0 <= i < |xs| ==> Plain(xs[i].cell.v)
    case _ => true
  }

  lemma {:induction false} SameReflexive(v: Value)
    requires Plain(v)
    ensures Same(v, v)
    decreases v
  {
    match v
    case List(xs) =>
      forall i | 0 <= i < |xs|
        ensures Same(xs[i].v, xs[i].v)
      {
        SameReflexive(xs[i].v);
      }
    case Attrs(xs) =>
      forall i | 0 <= i < |xs|
        ensures Same(xs[i].cell.v, xs[i].cell.v)
      {
        SameReflexive(xs[i].cell.v);
      }
      if IsPackage(xs) {
        var i :| 0 <= i < |xs| && xs[i] == Attr(OUT_PATH, Get(xs, OUT_PATH).value);
      }
    case _ =>
  }

  lemma {:induction false} SameSymmetric(v: Value, w: Value)
    requires Same(v, w)
    ensures Same(w, v)
    decreases v
  {
    match (v, w)
    case (List(xs), List(ys)) =>
      forall i | 0 <= i < |xs|
        ensures Same(ys[i].v, xs[i].v)
      {
        SameSymmetric(xs[i].v, ys[i].v);
      }
    case (Attrs(xs), Attrs(ys)) =>
      if IsPackage(xs) && IsPackage(ys) {
        PartSmaller(xs, OUT_PATH, v);
        SameSymmetric(Get(xs, OUT_PATH).value.v, Get(ys, OUT_PATH).value.v);
      } else {
        forall i | 0 <= i < |xs|
          ensures Same(ys[i].cell.v, xs[i].cell.v)
        {
          SameSymmetric(xs[i].cell.v, ys[i].cell.v);
        }
      }
    case _ =>
  }

  /** The attribute-by-attribute comparison. */
  ghost predicate SameParts(xs: seq<Attr>, ys: seq<Attr>) {
    |xs| == |ys| && forall i :: 0 <= i < |xs| ==> xs[i].name == ys[i].name && Same(xs[i].cell.v, ys[i].cell.v)
  }

  lemma {:induction false} SamePartsGet(xs: seq<Attr>, ys: seq<Attr>, name: Symbol)
    requires SameParts(xs, ys)
    ensures Get(xs, name).Some? <==> Get(ys, name).Some?
    ensures Get(xs, name).Some? ==> Same(Get(xs, name).value.v, Get(ys, name).value.v)
  {
    if xs != [] && xs[0].name != name {
      assert forall i :: 0 <= i < |xs[1..]| ==> xs[1..][i] == xs[i + 1] && ys[1..][i] == ys[i + 1];
      SamePartsGet(xs[1..], ys[1..], name);
    }
  }

  /** A set equal attribute by attribute to a derivation is one itself, so the shortcut and
      the full comparison never mix within a chain of equal values. */
  lemma SamePartsKind(xs: seq<Attr>, ys: seq<Attr>)
    requires SameParts(xs, ys)
    ensures IsPackage(xs) <==> IsPackage(ys)
  {
    SamePartsGet(xs, ys, TYPE);
    SamePartsGet(xs, ys, OUT_PATH);
  }

  lemma {:induction false} SameTransitive(u: Value, v: Value, w: Value)
    requires Plain(u) && Plain(v) && Plain(w)
    requires Same(u, v) && Same(v, w)
    ensures Same(u, w)
    decreases u
  {
    match (u, v, w)
    case (List(xs), List(ys), List(zs)) =>
      forall i | 0 <= i < |xs|
        ensures Same(xs[i].v, zs[i].v)
      {
        SameTransitive(xs[i].v, ys[i].v, zs[i].v);
      }
    case (Attrs(xs), Attrs(ys), Attrs(zs)) => AttrsTransitive(xs, ys, zs);
    case _ =>
  }

  lemma {:induction false} AttrsTransitive(xs: seq<Attr>, ys: seq<Attr>, zs: seq<Attr>)
    requires Plain(Attrs(xs)) && Plain(Attrs(ys)) && Plain(Attrs(zs))
    requires Same(Attrs(xs), Attrs(ys)) && Same(Attrs(ys), Attrs(zs))
    ensures Same(Attrs(xs), Attrs(zs))
    decreases Attrs(xs), 0
  {
    if IsPackage(xs) && IsPackage(ys) && IsPackage(zs) {
      var a, b, c := Get(xs, OUT_PATH).value, Get(ys, OUT_PATH).value, Get(zs, OUT_PATH).value;
      PartSmaller(xs, OUT_PATH, Attrs(xs));
      assert Plain(a.v) && Plain(b.v) && Plain(c.v) by {
        PartPlain(xs, OUT_PATH);
        PartPlain(ys, OUT_PATH);
        PartPlain(zs, OUT_PATH);
      }
      SameTransitive(a.v, b.v, c.v);
    } else {
      if !(IsPackage(xs) && IsPackage(ys)) {
        SamePartsKind(xs, ys);
      }
      if !(IsPackage(ys) && IsPackage(zs)) {
        SamePartsKind(ys, zs);
      }
      forall i | 0 <= i < |xs|
        ensures xs[i].name == zs[i].name && Same(xs[i].cell.v, zs[i].cell.v)
      {
        SameTransitive(xs[i].cell.v, ys[i].cell.v, zs[i].cell.v);
      }
    }
  }

  lemma PartPlain(xs: seq<Attr>, name: Symbol)
    requires Plain(Attrs(xs)) && Get(xs, name).Some?
    ensures Plain(Get(xs, name).value.v)
  {
    var i :| 0 <= i < |xs| && xs[i] == Attr(name, Get(xs, name).value);
  }

  /* Equality as it is: two cells at one address are equal without a look */

  /** `eqValues` when nothing throws. */
  ghost predicate Eq(a: Cell, b: Cell)
    decreases a
  {
    a.addr == b.addr ||
    match (a.v, b.v)
    case (List(xs), List(ys)) =>
      |xs| == |ys| && forall i :: 0 <= i < |xs| ==> Eq(xs[i], ys[i])
    case (Attrs(xs), Attrs(ys)) =>
      if IsPackage(xs) && IsPackage(ys) then
        PartSmaller(xs, OUT_PATH, a.v);
        Eq(Get(xs, OUT_PATH).value, Get(ys, OUT_PATH).value)
      else
        |xs| == |ys| && forall i :: 0 <= i < |xs| ==> xs[i].name == ys[i].name && Eq(xs[i].cell, ys[i].cell)
    case (List(_), _) => false
    case (Attrs(_), _) => false
    case _ => Same(a.v, b.v)
  }

  /** Every cell of a value is what memory holds at its address. */
  ghost predicate InMemory(c: Cell, mem: nat -> Value)
    decreases c
  {
    c.v == mem(c.addr) &&
    match c.v
    case List(xs) => forall i :: 0 <= i < |xs| ==> InMemory(xs[i], mem)
    case Attrs(xs) => forall i :: 0 <= i < |xs| ==> InMemory(xs[i].cell, mem)
    case _ => true
  }

  lemma PartInMemory(a: Cell, name: Symbol, mem: nat -> Value)
    requires InMemory(a, mem) && Plain(a.v) && a.v.Attrs? && Get(a.v.attrs, name).Some?
    ensures var part := Get(a.v.attrs, name).value; InMemory(part, mem) && Plain(part.v) && part < a
  {
    var xs := a.v.attrs;
    var i :| 0 <= i < |xs| && xs[i] == Attr(name, Get(xs, name).value);
    assert xs[i].cell < a;
  }

  /** On data, comparing addresses first changes nothing. */
  lemma {:induction false} AddressesDoNotMatter(a: Cell, b: Cell, mem: nat -> Value)
    requires InMemory(a, mem) && InMemory(b, mem) && Plain(a.v) && Plain(b.v)
    ensures Eq(a, b) == Same(a.v, b.v)
    decreases a, 1
  {
    if a.addr == b.addr {
      SameReflexive(a.v);
    } else {
      match (a.v, b.v)
      case (List(xs), List(ys)) =>
        forall i | 0 <= i < |xs| && i < |ys|
          ensures Eq(xs[i], ys[i]) == Same(xs[i].v, ys[i].v)
        {
          AddressesDoNotMatter(xs[i], ys[i], mem);
        }
      case (Attrs(xs), Attrs(ys)) => SetAddressesDoNotMatter(a, b, mem);
      case _ =>
    }
  }

  lemma {:induction false} SetAddressesDoNotMatter(a: Cell, b: Cell, mem: nat -> Value)
    requires InMemory(a, mem) && InMemory(b, mem) && Plain(a.v) && Plain(b.v)
    requires a.v.Attrs? && b.v.Attrs? && a.addr != b.addr
    ensures Eq(a, b) == Same(a.v, b.v)
    decreases a, 0
  {
    var xs, ys := a.v.attrs, b.v.attrs;
    if IsPackage(xs) && IsPackage(ys) {
      PartInMemory(a, OUT_PATH, mem);
      PartInMemory(b, OUT_PATH, mem);
      AddressesDoNotMatter(Get(xs, OUT_PATH).value, Get(ys, OUT_PATH).value, mem);
    } else {
      forall i | 0 <= i < |xs| && i < |ys|
        ensures Eq(xs[i].cell, ys[i].cell) == Same(xs[i].cell.v, ys[i].cell.v)
      {
        AddressesDoNotMatter(xs[i].cell, ys[i].cell, mem);
      }
    }
  }

  /** `eqValues` is an equivalence relation on data in memory, the derivation shortcut and
      the address shortcut included. */
  lemma EqIsEquivalence(a: Cell, b: Cell, c: Cell, mem: nat -> Value)
    requires InMemory(a, mem) && InMemory(b, mem) && InMemory(c, mem)
    requires Plain(a.v) && Plain(b.v) && Plain(c.v)
    ensures Eq(a, a)
    ensures Eq(a, b) ==> Eq(b, a)
    ensures Eq(a, b) && Eq(b, c) ==> Eq(a, c)
  {
    AddressesDoNotMatter(a, b, mem);
    AddressesDoNotMatter(b, a, mem);
    AddressesDoNotMatter(b, c, mem);
    AddressesDoNotMatter(a, c, mem);
    if Eq(a, b) {
      SameSymmetric(a.v, b.v);
      if Eq(b, c) {
        SameTransitive(a.v, b.v, c.v);
      }
    }
  }

  /** No function, no NaN and nothing that throws is ever compared when the value is compared with itself. */
  ghost predicate SelfEqual(v: Value) {
    match v
    case Function(_) => false
    case Failing(_) => false
    case Float(d) => d.Num?
    case List(xs) => forall i :: 0 <= i < |xs| ==> SelfEqual(xs[i].v)
    case Attrs(xs) =>
      if IsPackage(xs) then (PartSmaller(xs, OUT_PATH, v); SelfEqual(Get(xs, OUT_PATH).value.v))
      else forall i :: 0 <= i < |xs| ==> SelfEqual(xs[i].cell.v)
    case _ => true
  }

  /** Beyond data, a value equals a copy of itself exactly when it is self-equal. */
  lemma {:induction false} SelfEqualExactly(v: Value)
    ensures Same(v, v) <==> SelfEqual(v)
    decreases v
  {
    match v
    case List(xs) =>
      forall i | 0 <= i < |xs|
        ensures Same(xs[i].v, xs[i].v) <==> SelfEqual(xs[i].v)
      {
        SelfEqualExactly(xs[i].v);
      }
    case Attrs(xs) =>
      forall i | 0 <= i < |xs|
        ensures Same(xs[i].cell.v, xs[i].cell.v) <==> SelfEqual(xs[i].cell.v)
      {
        SelfEqualExactly(xs[i].cell.v);
      }
      if IsPackage(xs) {
        PartSmaller(xs, OUT_PATH, v);
        SelfEqualExactly(Get(xs, OUT_PATH).value.v);
      }
    case _ =>
  }

  /* Equality with its errors */

  /** `isDerivation`, which forces the type. */
  function DerivationAnswer(xs: seq<Attr>): Outcome<bool, Exception> {
    match Get(xs, TYPE)
    case None => Done(false)
    case Some(t) => if t.v.Failing? then Throws(t.v.error) else Done(t.v == Str(DERIVATION))
  }

  /** Whether two sets compare by their output paths; the second type is forced only if the
      first set is a derivation. */
  function PackagesAnswer(xs: seq<Attr>, ys: seq<Attr>): (r: Outcome<bool, Exception>)
    ensures r.Done? ==> r.value == (IsPackage(xs) && IsPackage(ys))
  {
    var d := DerivationAnswer(xs);
    var d' := if d == Done(true) then DerivationAnswer(ys) else d;
    if d' == Done(true) then Done(Get(xs, OUT_PATH).Some? && Get(ys, OUT_PATH).Some?) else d'
  }

  /** `eqValues`: both sides are forced, left first, then compared part by part until
      something throws or differs. */
  ghost function Answer(a: Cell, b: Cell): Outcome<bool, Exception>
    decreases a, 0, 1
  {
    if a.v.Failing? then Throws(a.v.error)
    else if b.v.Failing? then Throws(b.v.error)
    else if a.addr == b.addr then Done(true)
    else
      match (a.v, b.v)
      case (List(xs), List(ys)) => if |xs| != |ys| then Done(false) else ListAnswer(a, xs, ys, 0)
      case (Attrs(xs), Attrs(ys)) =>
        var packages := PackagesAnswer(xs, ys);
        if packages == Done(true) then
          PartSmaller(xs, OUT_PATH, a.v);
          Answer(Get(xs, OUT_PATH).value, Get(ys, OUT_PATH).value)
        else if packages.Throws? then packages
        else if |xs| != |ys| then Done(false)
        else AttrsAnswer(a, xs, ys, 0)
      case _ => Done(SameScalar(a.v, b.v))
  }

  ghost function ListAnswer(a: Cell, xs: seq<Cell>, ys: seq<Cell>, i: nat): Outcome<bool, Exception>
    requires a.v == List(xs) && i <= |xs| == |ys|
    decreases a, 0, 0, |xs| - i
  {
    if i == |xs| then Done(true)
    else
      var r := Answer(xs[i], ys[i]);
      if r == Done(true) then ListAnswer(a, xs, ys, i + 1) else r
  }

  ghost function AttrsAnswer(a: Cell, xs: seq<Attr>, ys: seq<Attr>, i: nat): Outcome<bool, Exception>
    requires a.v == Attrs(xs) && i <= |xs| == |ys|
    decreases a, 0, 0, |xs| - i
  {
    if i == |xs| then Done(true)
    else if xs[i].name != ys[i].name then Done(false)
    else
      var r := Answer(xs[i].cell, ys[i].cell);
      if r == Done(true) then AttrsAnswer(a, xs, ys, i + 1) else r
  }

  /** The comparison of everything but lists and sets. */
  predicate SameScalar(v: Value, w: Value) {
    match (v, w)
    case (Null, Null) => true
    case (Bool(x), Bool(y)) => x == y
    case (Int(x), Int(y)) => x == y
    case (Int(x), Float(y)) => SameDouble(Num(x as real), y)
    case (Float(x), Int(y)) => SameDouble(x, Num(y as real))
    case (Float(x), Float(y)) => SameDouble(x, y)
    case (Str(x), Str(y)) => x == y
    case (Path(a, x), Path(b, y)) => a == b && x == y
    case _ => false
  }

  /** The left side is forced first, then the right one, and sizes are compared before parts. */
  lemma AnswerLeftFirst(a: Cell, b: Cell)
    ensures a.v.Failing? ==> Answer(a, b) == Throws(a.v.error)
    ensures !a.v.Failing? && b.v.Failing? ==> Answer(a, b) == Throws(b.v.error)
    ensures a.v.List? && b.v.List? && a.addr != b.addr && |a.v.elems| != |b.v.elems| ==> Answer(a, b) == Done(false)
  {
  }

  /** The first position of two lists that does not answer true decides. */
  lemma ListAnswerAt(a: Cell, b: Cell, k: nat)
    requires a.v.List? && b.v.List? && a.addr != b.addr && k <= |a.v.elems| == |b.v.elems|
    requires forall i :: 0 <= i < k ==> Answer(a.v.elems[i], b.v.elems[i]) == Done(true)
    requires k < |a.v.elems| ==> Answer(a.v.elems[k], b.v.elems[k]) != Done(true)
    ensures Answer(a, b) == if k == |a.v.elems| then Done(true) else Answer(a.v.elems[k], b.v.elems[k])
  {
    SkipEqual(a, a.v.elems, b.v.elems, 0, k);
  }

  lemma {:induction false} SkipEqual(a: Cell, xs: seq<Cell>, ys: seq<Cell>, i: nat, k: nat)
    requires a.v == List(xs) && i <= k <= |xs| == |ys|
    requires forall j :: 0 <= j < k ==> Answer(xs[j], ys[j]) == Done(true)
    ensures ListAnswer(a, xs, ys, i) == ListAnswer(a, xs, ys, k)
    decreases k - i
  {
    if i < k {
      SkipEqual(a, xs, ys, i + 1, k);
    }
  }

  /** So does the first position of two equally large sets, neither of them a derivation, at
      which the names differ or the values do not answer true. */
  lemma AttrsAnswerAt(a: Cell, b: Cell, k: nat)
    requires a.v.Attrs? && b.v.Attrs? && a.addr != b.addr && k <= |a.v.attrs| == |b.v.attrs|
    requires PackagesAnswer(a.v.attrs, b.v.attrs) == Done(false)
    requires forall i :: 0 <= i < k ==> a.v.attrs[i].name == b.v.attrs[i].name
    requires forall i :: 0 <= i < k ==> Answer(a.v.attrs[i].cell, b.v.attrs[i].cell) == Done(true)
    requires k < |a.v.attrs| && a.v.attrs[k].name == b.v.attrs[k].name ==>
      Answer(a.v.attrs[k].cell, b.v.attrs[k].cell) != Done(true)
    ensures Answer(a, b) ==
      if k == |a.v.attrs| then Done(true)
      else if a.v.attrs[k].name != b.v.attrs[k].name then Done(false)
      else Answer(a.v.attrs[k].cell, b.v.attrs[k].cell)
  {
    hide Answer, AttrsAnswer, PackagesAnswer;
    AnswerOfSets(a, b);
    SkipEqualAttrs(a, a.v.attrs, b.v.attrs, 0, k);
    AttrsAnswerHere(a, a.v.attrs, b.v.attrs, k);
  }

  lemma AnswerOfSets(a: Cell, b: Cell)
    requires a.v.Attrs? && b.v.Attrs? && a.addr != b.addr && |a.v.attrs| == |b.v.attrs|
    requires PackagesAnswer(a.v.attrs, b.v.attrs) == Done(false)
    ensures Answer(a, b) == AttrsAnswer(a, a.v.attrs, b.v.attrs, 0)
  {
    hide AttrsAnswer, PackagesAnswer;
  }

  lemma AttrsAnswerHere(a: Cell, xs: seq<Attr>, ys: seq<Attr>, k: nat)
    requires a.v == Attrs(xs) && k <= |xs| == |ys|
    requires k < |xs| && xs[k].name == ys[k].name ==> Answer(xs[k].cell, ys[k].cell) != Done(true)
    ensures AttrsAnswer(a, xs, ys, k) ==
      if k == |xs| then Done(true)
      else if xs[k].name != ys[k].name then Done(false)
      else Answer(xs[k].cell, ys[k].cell)
  {
    hide Answer;
  }

  lemma {:induction false} SkipEqualAttrs(a: Cell, xs: seq<Attr>, ys: seq<Attr>, i: nat, k: nat)
    requires a.v == Attrs(xs) && i <= k <= |xs| == |ys|
    requires forall j :: 0 <= j < k ==> xs[j].name == ys[j].name && Answer(xs[j].cell, ys[j].cell) == Done(true)
    ensures AttrsAnswer(a, xs, ys, i) == AttrsAnswer(a, xs, ys, k)
    decreases k - i
  {
    if i < k {
      SkipEqualAttrs(a, xs, ys, i + 1, k);
    }
  }

  /** An answer is right whatever else would throw. */
  lemma {:induction false} AnswerIsEq(a: Cell, b: Cell)
    requires Answer(a, b).Done?
    ensures Answer(a, b).value == Eq(a, b)
    decreases a, 0, 1
  {
    if a.addr != b.addr {
      match (a.v, b.v)
      case (List(xs), List(ys)) =>
        if |xs| == |ys| {
          ListAnswerIsEq(a, xs, ys, 0);
        }
      case (Attrs(xs), Attrs(ys)) =>
        if IsPackage(xs) && IsPackage(ys) {
          PartSmaller(xs, OUT_PATH, a.v);
          AnswerIsEq(Get(xs, OUT_PATH).value, Get(ys, OUT_PATH).value);
        } else if |xs| == |ys| {
          AttrsAnswerIsEq(a, xs, ys, 0);
        }
      case _ =>
    }
  }

  lemma {:induction false} ListAnswerIsEq(a: Cell, xs: seq<Cell>, ys: seq<Cell>, i: nat)
    requires a.v == List(xs) && i <= |xs| == |ys| && ListAnswer(a, xs, ys, i).Done?
    ensures ListAnswer(a, xs, ys, i).value <==> forall k :: i <= k < |xs| ==> Eq(xs[k], ys[k])
    decreases a, 0, 0, |xs| - i
  {
    if i < |xs| {
      AnswerIsEq(xs[i], ys[i]);
      if Answer(xs[i], ys[i]) == Done(true) {
        ListAnswerIsEq(a, xs, ys, i + 1);
      }
    }
  }

  lemma {:induction false} AttrsAnswerIsEq(a: Cell, xs: seq<Attr>, ys: seq<Attr>, i: nat)
    requires a.v == Attrs(xs) && i <= |xs| == |ys| && AttrsAnswer(a, xs, ys, i).Done?
    ensures AttrsAnswer(a, xs, ys, i).value <==>
      forall k :: i <= k < |xs| ==> xs[k].name == ys[k].name && Eq(xs[k].cell, ys[k].cell)
    decreases a, 0, 0, |xs| - i
  {
    if i < |xs| && xs[i].name == ys[i].name {
      AnswerIsEq(xs[i].cell, ys[i].cell);
      if Answer(xs[i].cell, ys[i].cell) == Done(true) {
        AttrsAnswerIsEq(a, xs, ys, i + 1);
      }
    }
  }

  /** The failures of a value at any depth. */
  ghost predicate CanThrow(v: Value, error: Exception) {
    match v
    case Failing(e) => e == error
    case List(xs) => exists i :: 0 <= i < |xs| && CanThrow(xs[i].v, error)
    case Attrs(xs) => exists i :: 0 <= i < |xs| && CanThrow(xs[i].cell.v, error)
    case _ => false
  }

  /** An error is that of a part of one of the two values. */
  lemma {:induction false} AnswerThrows(a: Cell, b: Cell)
    requires Answer(a, b).Throws?
    ensures CanThrow(a.v, Answer(a, b).error) || CanThrow(b.v, Answer(a, b).error)
    decreases a, 0, 1
  {
    if !a.v.Failing? && !b.v.Failing? {
      match (a.v, b.v)
      case (List(xs), List(ys)) => ListAnswerThrows(a, xs, ys, 0);
      case (Attrs(xs), Attrs(ys)) =>
        if PackagesAnswer(xs, ys) == Done(true) {
          PartSmaller(xs, OUT_PATH, a.v);
          AnswerThrows(Get(xs, OUT_PATH).value, Get(ys, OUT_PATH).value);
          PartThrows(xs, OUT_PATH, Answer(a, b).error);
          PartThrows(ys, OUT_PATH, Answer(a, b).error);
        } else if PackagesAnswer(xs, ys).Throws? {
          PartThrows(xs, TYPE, Answer(a, b).error);
          PartThrows(ys, TYPE, Answer(a, b).error);
        } else {
          AttrsAnswerThrows(a, xs, ys, 0);
        }
    }
  }

  lemma PartThrows(xs: seq<Attr>, name: Symbol, error: Exception)
    ensures Get(xs, name).Some? && CanThrow(Get(xs, name).value.v, error) ==> CanThrow(Attrs(xs), error)
  {
  }

  lemma {:induction false} ListAnswerThrows(a: Cell, xs: seq<Cell>, ys: seq<Cell>, i: nat)
    requires a.v == List(xs) && i <= |xs| == |ys| && ListAnswer(a, xs, ys, i).Throws?
    ensures CanThrow(List(xs), ListAnswer(a, xs, ys, i).error) || CanThrow(List(ys), ListAnswer(a, xs, ys, i).error)
    decreases a, 0, 0, |xs| - i
  {
    if Answer(xs[i], ys[i]) == Done(true) {
      ListAnswerThrows(a, xs, ys, i + 1);
    } else {
      AnswerThrows(xs[i], ys[i]);
    }
  }

  lemma {:induction false} AttrsAnswerThrows(a: Cell, xs: seq<Attr>, ys: seq<Attr>, i: nat)
    requires a.v == Attrs(xs) && i <= |xs| == |ys| && AttrsAnswer(a, xs, ys, i).Throws?
    ensures var error := AttrsAnswer(a, xs, ys, i).error; CanThrow(Attrs(xs), error) || CanThrow(Attrs(ys), error)
    decreases a, 0, 0, |xs| - i
  {
    if Answer(xs[i].cell, ys[i].cell) == Done(true) {
      AttrsAnswerThrows(a, xs, ys, i + 1);
    } else {
      AnswerThrows(xs[i].cell, ys[i].cell);
    }
  }

  lemma {:induction false} DataCannotThrow(v: Value, error: Exception)
    requires Plain(v)
    ensures !CanThrow(v, error)
  {
    match v
    case List(xs) =>
      forall i | 0 <= i < |xs|
        ensures !CanThrow(xs[i].v, error)
      {
        DataCannotThrow(xs[i].v, error);
      }
    case Attrs(xs) =>
      forall i | 0 <= i < |xs|
        ensures !CanThrow(xs[i].cell.v, error)
      {
        DataCannotThrow(xs[i].cell.v, error);
      }
    case _ =>
  }

  /** On data the procedure answers, and the answer is the equality whose laws are above. */
  lemma AnswerOnData(a: Cell, b: Cell)
    requires Plain(a.v) && Plain(b.v)
    ensures Answer(a, b) == Done(Eq(a, b))
  {
    if Answer(a, b).Throws? {
      AnswerThrows(a, b);
      DataCannotThrow(a.v, Answer(a, b).error);
      DataCannotThrow(b.v, Answer(a, b).error);
    } else {
      AnswerIsEq(a, b);
    }
  }

  /** Errors break the symmetry: the empty set differs from `{ type = throw ..; }`, but the
      other way round the comparison throws. */
  lemma AnswerNotSymmetric(error: Exception)
    ensures var a, b := Cell(0, Attrs([])), Cell(1, Attrs([Attr(TYPE, Cell(2, Failing(error)))]));
      Answer(a, b) == Done(false) && Answer(b, a) == Throws(error)
  {
  }

  /* Which values are equal: the trees that are left without addresses */

  /** A value without its addresses. Numbers of either kind are reals; a derivation with an
      output path is that path and nothing else; what equals nothing is opaque. */
  datatype Tree =
    | NullTree
    | BoolTree(b: bool)
    | NumberTree(x: real)
    | StrTree(s: Bytes)
    | PathTree(accessor: nat, s: Bytes)
    | ListTree(elems: seq<Tree>)
    | AttrsTree(attrs: seq<(Symbol, Tree)>)
    | PackageTree(outPath: Tree)
    | Opaque

  ghost function TreeOf(v: Value): Tree {
    match v
    case Null => NullTree
    case Bool(b) => BoolTree(b)
    case Int(n) => NumberTree(n as real)
    case Float(d) => if d.Num? then NumberTree(d.x) else Opaque
    case Str(s) => StrTree(s)
    case Path(accessor, s) => PathTree(accessor, s)
    case List(xs) => ListTree(seq(|xs|, i requires 0 <= i < |xs| => TreeOf(xs[i].v)))
    case Attrs(xs) =>
      if IsPackage(xs) then (PartSmaller(xs, OUT_PATH, v); PackageTree(TreeOf(Get(xs, OUT_PATH).value.v)))
      else AttrsTree(seq(|xs|, i requires 0 <= i < |xs| => (xs[i].name, TreeOf(xs[i].cell.v))))
    case Function(_) => Opaque
    case Failing(_) => Opaque
  }

  /** Two values are equal if and only if their trees are identical and nothing in them is
      opaque, where only the output path of a package is looked at. */
  lemma {:induction false} SameIsSameTree(v: Value, w: Value)
    ensures Same(v, w) <==> SelfEqual(v) && TreeOf(v) == TreeOf(w)
    decreases v
  {
    match (v, w)
    case (Int(x), Int(y)) => assert x == y <==> x as real == y as real;
    case (List(xs), List(ys)) => ListTrees(xs, ys);
    case (Attrs(xs), Attrs(ys)) =>
      if IsPackage(xs) && IsPackage(ys) {
        PartSmaller(xs, OUT_PATH, v);
        SameIsSameTree(Get(xs, OUT_PATH).value.v, Get(ys, OUT_PATH).value.v);
      } else if IsPackage(xs) || IsPackage(ys) {
        if Same(v, w) {
          SamePartsKind(xs, ys);
        }
      } else {
        AttrsTrees(xs, ys);
      }
    case _ =>
  }

  lemma {:induction false} ListTrees(xs: seq<Cell>, ys: seq<Cell>)
    ensures Same(List(xs), List(ys)) <==> SelfEqual(List(xs)) && TreeOf(List(xs)) == TreeOf(List(ys))
    decreases List(xs), 0
  {
    var s, t := TreeOf(List(xs)).elems, TreeOf(List(ys)).elems;
    forall i | 0 <= i < |xs| && i < |ys|
      ensures Same(xs[i].v, ys[i].v) <==> SelfEqual(xs[i].v) && s[i] == t[i]
    {
      SameIsSameTree(xs[i].v, ys[i].v);
    }
    if Same(List(xs), List(ys)) {
      assert s == t;
    }
  }

  lemma {:induction false} AttrsTrees(xs: seq<Attr>, ys: seq<Attr>)
    requires !IsPackage(xs) && !IsPackage(ys)
    ensures Same(Attrs(xs), Attrs(ys)) <==> SelfEqual(Attrs(xs)) && TreeOf(Attrs(xs)) == TreeOf(Attrs(ys))
    decreases Attrs(xs), 0
  {
    var s, t := TreeOf(Attrs(xs)).attrs, TreeOf(Attrs(ys)).attrs;
    forall i | 0 <= i < |xs| && i < |ys|
      ensures Same(xs[i].cell.v, ys[i].cell.v) <==> SelfEqual(xs[i].cell.v) && s[i].1 == t[i].1
      ensures s[i].0 == xs[i].name && t[i].0 == ys[i].name
    {
      SameIsSameTree(xs[i].cell.v, ys[i].cell.v);
    }
    if Same(Attrs(xs), Attrs(ys)) {
      assert s == t;
    }
  }

  /** On data nothing is opaque: equal exactly if the trees are identical. */
  lemma DataSameTree(v: Value, w: Value)
    requires Plain(v)
    ensures Same(v, w) <==> TreeOf(v) == TreeOf(w)
  {
    SameIsSameTree(v, w);
    SameReflexive(v);
    SelfEqualExactly(v);
  }

  /** Two derivations with output paths are equal exactly if these are, whatever else they
      hold. */
  lemma PackagesByOutPath(xs: seq<Attr>, ys: seq<Attr>, i: nat, j: nat)
    requires SortedAttrs(xs) && SortedAttrs(ys) && IsDerivation(xs) && IsDerivation(ys)
    requires i < |xs| && xs[i].name == OUT_PATH && j < |ys| && ys[j].name == OUT_PATH
    ensures Same(Attrs(xs), Attrs(ys)) <==> Same(xs[i].cell.v, ys[j].cell.v)
  {
    GetAt(xs, i);
    GetAt(ys, j);
    hide Same, Get, IsDerivation, SortedAttrs;
    SamePackages(xs, ys);
  }

  lemma SamePackages(xs: seq<Attr>, ys: seq<Attr>)
    requires IsPackage(xs) && IsPackage(ys)
    ensures Same(Attrs(xs), Attrs(ys)) <==> Same(Get(xs, OUT_PATH).value.v, Get(ys, OUT_PATH).value.v)
  {
    hide Get, IsDerivation;
  }

  /* The two procedures */

  /** `Bindings::get` on one sorted array of attributes. */
  method GetAttr(xs: seq<Attr>, name: Symbol) returns (r: Option<Cell>)
    requires SortedAttrs(xs)
    ensures r == Get(xs, name)
  {
    var lo, hi := 0, |xs|;
    while lo < hi
      invariant 0 <= lo <= hi <= |xs|
      invariant forall i :: 0 <= i < lo ==> xs[i].name < name
      invariant forall i :: hi <= i < |xs| ==> name <= xs[i].name
    {
      var mid := (lo + hi) / 2;
      if xs[mid].name < name {
        lo := mid + 1;
      } else {
        hi := mid;
      }
    }
    if lo < |xs| && xs[lo].name == name {
      GetAt(xs, lo);
      return Some(xs[lo].cell);
    }
    r := None;
  }

  method CheckDerivation(xs: seq<Attr>) returns (r: Outcome<bool, Exception>)
    requires SortedAttrs(xs)
    ensures r == DerivationAnswer(xs)
  {
    var t := GetAttr(xs, TYPE);
    if t.None? {
      return Done(false);
    }
    if t.value.v.Failing? {
      return Throws(t.value.v.error);
    }
    r := Done(t.value.v == Str(DERIVATION));
  }

  /** The two output paths, if the sets compare by them. */
  method OutPaths(xs: seq<Attr>, ys: seq<Attr>) returns (r: Outcome<Option<(Cell, Cell)>, Exception>)
    requires SortedAttrs(xs) && SortedAttrs(ys)
    ensures r.Throws? <==> PackagesAnswer(xs, ys).Throws?
    ensures r.Throws? ==> r.error == PackagesAnswer(xs, ys).error
    ensures r.Done? ==> PackagesAnswer(xs, ys) == Done(r.value.Some?)
    ensures r.Done? && r.value.Some? ==> Get(xs, OUT_PATH) == Some(r.value.value.0)
    ensures r.Done? && r.value.Some? ==> Get(ys, OUT_PATH) == Some(r.value.value.1)
  {
    var d := CheckDerivation(xs);
    if d == Done(true) {
      d := CheckDerivation(ys);
    }
    if d.Throws? {
      return Throws(d.error);
    }
    if d.value {
      var i := GetAttr(xs, OUT_PATH);
      var j := GetAttr(ys, OUT_PATH);
      if i.Some? && j.Some? {
        return Done(Some((i.value, j.value)));
      }
    }
    r := Done(None);
  }

  method EqValues(a: Cell, b: Cell) returns (r: Outcome<bool, Exception>)
    requires Wf(a.v) && Wf(b.v)
    ensures r == Answer(a, b)
    decreases a, 1
  {
    if a.v.Failing? {
      return Throws(a.v.error);
    }
    if b.v.Failing? {
      return Throws(b.v.error);
    }
    if a.addr == b.addr {
      return Done(true);
    }
    if a.v.List? && b.v.List? {
      r := EqLists(a, b);
      return;
    }
    if a.v.Attrs? && b.v.Attrs? {
      r := EqSets(a, b);
      return;
    }
    r := Done(SameScalar(a.v, b.v));
  }

  method EqLists(a: Cell, b: Cell) returns (r: Outcome<bool, Exception>)
    requires Wf(a.v) && Wf(b.v) && a.v.List? && b.v.List? && a.addr != b.addr
    ensures r == Answer(a, b)
    decreases a, 0
  {
    var xs, ys := a.v.elems, b.v.elems;
    if |xs| != |ys| {
      return Done(false);
    }
    for n := 0 to |xs|
      invariant ListAnswer(a, xs, ys, n) == Answer(a, b)
    {
      r := EqValues(xs[n], ys[n]);
      if r != Done(true) {
        return;
      }
    }
    r := Done(true);
  }

  method EqSets(a: Cell, b: Cell) returns (r: Outcome<bool, Exception>)
    requires Wf(a.v) && Wf(b.v) && a.v.Attrs? && b.v.Attrs? && a.addr != b.addr
    ensures r == Answer(a, b)
    decreases a, 0
  {
    var xs, ys := a.v.attrs, b.v.attrs;
    var paths := OutPaths(xs, ys);
    if paths.Throws? {
      return Throws(paths.error);
    }
    if paths.value.Some? {
      PartOf(xs, OUT_PATH);
      PartOf(ys, OUT_PATH);
      r := EqValues(paths.value.value.0, paths.value.value.1);
      return;
    }
    if |xs| != |ys| {
      return Done(false);
    }
    for n := 0 to |xs|
      invariant AttrsAnswer(a, xs, ys, n) == Answer(a, b)
    {
      if xs[n].name != ys[n].name {
        return Done(false);
      }
      r := EqValues(xs[n].cell, ys[n].cell);
      if r != Done(true) {
        return;
      }
    }
    r := Done(true);
  }

  lemma PartOf(xs: seq<Attr>, name: Symbol)
    requires Get(xs, name).Some? && Wf(Attrs(xs))
    ensures Wf(Get(xs, name).value.v)
    ensures forall addr :: Get(xs, name).value < Cell(addr, Attrs(xs))
  {
    var i :| 0 <= i < |xs| && xs[i] == Attr(name, Get(xs, name).value);
  }

  /** How a call of `assertEqValues` can end: normally, with the assertion error that
      explains the difference, with an error from what it forces, or at one of its
      `assert(false)`. */
  datatype Ending = Returns | Explains | Raises(error: Exception) | Panics

  function EndingOf(r: Outcome<bool, Exception>): Ending {
    match r
    case Done(same) => if same then Returns else Explains
    case Throws(error) => Raises(error)
  }

  method AssertEqValues(a: Cell, b: Cell) returns (end: Ending)
    requires Wf(a.v) && Wf(b.v)
    ensures end == EndingOf(Answer(a, b))
    decreases a
  {
    if a.v.Failing? {
      return Raises(a.v.error);
    }
    if b.v.Failing? {
      return Raises(b.v.error);
    }
    if a.addr == b.addr {
      return Returns;
    }
    if (a.v.Int? || a.v.Float?) && (b.v.Int? || b.v.Float?) {
      var same := EqValues(a, b);
      return if same == Done(true) then Returns else Explains;
    }
    match (a.v, b.v)
    case (Bool(x), Bool(y)) => return if x != y then Explains else Returns;
    case (Str(x), Str(y)) => return if x != y then Explains else Returns;
    case (Path(p, x), Path(q, y)) =>
      if p != q {
        return Explains;
      }
      return if x != y then Explains else Returns;
    case (Null, Null) => return Returns;
    case (List(_), List(_)) => end := AssertEqLists(a, b);
    case (Attrs(_), Attrs(_)) => end := AssertEqAttrs(a, b);
    case (Function(_), Function(_)) => return Explains;
    case _ => return Explains;
  }

  method AssertEqLists(a: Cell, b: Cell) returns (end: Ending)
    requires Wf(a.v) && Wf(b.v) && a.addr != b.addr && a.v.List? && b.v.List?
    ensures end == EndingOf(Answer(a, b))
    decreases a, 0
  {
    var xs, ys := a.v.elems, b.v.elems;
    if |xs| != |ys| {
      return Explains;
    }
    for n := 0 to |xs|
      invariant ListAnswer(a, xs, ys, n) == Answer(a, b)
    {
      end := AssertEqValues(xs[n], ys[n]);
      if !end.Returns? {
        return;
      }
    }
    end := Returns;
  }

  method AssertEqAttrs(a: Cell, b: Cell) returns (end: Ending)
    requires Wf(a.v) && Wf(b.v) && a.addr != b.addr && a.v.Attrs? && b.v.Attrs?
    ensures end == EndingOf(Answer(a, b))
    decreases a, 0
  {
    var xs, ys := a.v.attrs, b.v.attrs;
    var paths := OutPaths(xs, ys);
    if paths.Throws? {
      return Raises(paths.error);
    }
    if paths.value.Some? {
      PartOf(xs, OUT_PATH);
      PartOf(ys, OUT_PATH);
      end := AssertEqValues(paths.value.value.0, paths.value.value.1);
      return;
    }
    if |xs| != |ys| {
      return Explains;
    }
    for n := 0 to |xs|
      invariant AttrsAnswer(a, xs, ys, n) == Answer(a, b)
      invariant forall i :: 0 <= i < n ==> xs[i].name == ys[i].name
    {
      if xs[n].name != ys[n].name {
        DifferenceExplained(xs, ys, n);
        var here := GetAttr(ys, xs[n].name);
        if here.None? {
          return Explains;
        }
        var there := GetAttr(xs, ys[n].name);
        if there.None? {
          return Explains;
        }
        return Panics;
      }
      end := AssertEqValues(xs[n].cell, ys[n].cell);
      if !end.Returns? {
        return;
      }
    }
    end := Returns;
  }

  /** The first differing name of two sorted lists is missing from one of them. */
  lemma DifferenceExplained(xs: seq<Attr>, ys: seq<Attr>, n: nat)
    requires SortedAttrs(xs) && SortedAttrs(ys) && n < |xs| && n < |ys|
    requires forall i :: 0 <= i < n ==> xs[i].name == ys[i].name
    requires xs[n].name != ys[n].name
    ensures Get(ys, xs[n].name).None? || Get(xs, ys[n].name).None?
  {
  }
}
