/** The order `CompareValues` puts on values. */
module Ordering {
  import opened Common
  import opened Outcomes
  import opened Equality

  /** The outcome of a comparison: less, not less, the error for incomparable values, or an
      error thrown by what is compared. */
  datatype Cmp = Yes | No | Cannot | Raises(error: Exception)

  /** Byte strings, compared lexicographically. */
  predicate BytesLess(s: Bytes, t: Bytes) {
    if t == [] then false
    else if s == [] then true
    else if s[0] != t[0] then s[0] < t[0]
    else BytesLess(s[1..], t[1..])
  }

  lemma {:induction false} BytesTotal(s: Bytes, t: Bytes)
    ensures !(BytesLess(s, t) && BytesLess(t, s))
    ensures s != t <==> BytesLess(s, t) || BytesLess(t, s)
  {
    if s != [] && t != [] {
      assert s == [s[0]] + s[1..] && t == [t[0]] + t[1..];
      BytesTotal(s[1..], t[1..]);
    }
  }

  lemma {:induction false} BytesTransitive(s: Bytes, t: Bytes, u: Bytes)
    requires BytesLess(s, t) && BytesLess(t, u)
    ensures BytesLess(s, u)
  {
    if s != [] && s[0] == t[0] == u[0] {
      BytesTransitive(s[1..], t[1..], u[1..]);
    }
  }

  /* The order, stated on values without addresses */

  function FromBool(b: bool): Cmp {
    if b then Yes else No
  }

  predicate DoubleLess(x: Double, y: Double) {
    x.Num? && y.Num? && x.x < y.x
  }

  ghost function Less(v: Value, w: Value): (r: Cmp)
    ensures !r.Raises?
    decreases v, 1
  {
    match (v, w)
    case (Float(x), Int(y)) => FromBool(DoubleLess(x, Num(y as real)))
    case (Int(x), Float(y)) => FromBool(DoubleLess(Num(x as real), y))
    case (Int(x), Int(y)) => FromBool(x < y)
    case (Float(x), Float(y)) => FromBool(DoubleLess(x, y))
    case (Str(x), Str(y)) => FromBool(BytesLess(x, y))
    case (Path(_, x), Path(_, y)) => FromBool(BytesLess(x, y))
    case (List(xs), List(ys)) => ListLess(v, xs, ys, 0)
    case _ => Cannot
  }

  /** Lists from position `i` on: the first position where they are not equal decides. */
  ghost function ListLess(v: Value, xs: seq<Cell>, ys: seq<Cell>, i: nat): (r: Cmp)
    requires v == List(xs) && i <= |xs| && i <= |ys|
    ensures !r.Raises?
    decreases v, 0, |xs| - i
  {
    if i == |ys| then No
    else if i == |xs| then Yes
    else if !Same(xs[i].v, ys[i].v) then Less(xs[i].v, ys[i].v)
    else ListLess(v, xs, ys, i + 1)
  }

  /** A comparison that comes down to two paths spelled alike under different accessors:
      equality tells them apart and the order does not. */
  ghost predicate ForeignPaths(v: Value, w: Value)
    decreases v, 1
  {
    match (v, w)
    case (Path(a, x), Path(b, y)) => a != b && x == y
    case (List(xs), List(ys)) => ForeignIn(v, xs, ys, 0)
    case _ => false
  }

  ghost predicate ForeignIn(v: Value, xs: seq<Cell>, ys: seq<Cell>, i: nat)
    requires v == List(xs) && i <= |xs| && i <= |ys|
    decreases v, 0, |xs| - i
  {
    i < |xs| && i < |ys| &&
    (if !Same(xs[i].v, ys[i].v) then ForeignPaths(xs[i].v, ys[i].v) else ForeignIn(v, xs, ys, i + 1))
  }

  /* What the order says, case by case */

  /** A proper prefix, or smaller at the first byte that differs. */
  ghost predicate Before(s: Bytes, t: Bytes) {
    exists k: nat ::
      && k <= |s| && k <= |t| && s[..k] == t[..k]
      && ((k == |s| && k < |t|) || (k < |s| && k < |t| && s[k] < t[k]))
  }

  lemma {:induction false} BytesLessMeans(s: Bytes, t: Bytes)
    ensures BytesLess(s, t) <==> Before(s, t)
  {
    if s == [] || t == [] {
      assert s[..0] == t[..0];
    } else if s[0] != t[0] {
      assert s[..0] == t[..0];
      assert forall k: nat :: 0 < k <= |s| && k <= |t| ==> s[..k][0] == s[0] && t[..k][0] == t[0];
    } else {
      BytesLessMeans(s[1..], t[1..]);
      BeforeTail(s, t);
    }
  }

  lemma BeforeTail(s: Bytes, t: Bytes)
    requires s != [] && t != [] && s[0] == t[0]
    ensures Before(s[1..], t[1..]) <==> Before(s, t)
  {
    if Before(s[1..], t[1..]) {
      var k: nat :| && k <= |s[1..]| && k <= |t[1..]| && s[1..][..k] == t[1..][..k]
        && ((k == |s[1..]| && k < |t[1..]|) || (k < |s[1..]| && k < |t[1..]| && s[1..][k] < t[1..][k]));
      assert s[..k + 1] == [s[0]] + s[1..][..k] == t[..k + 1];
    }
    if Before(s, t) {
      var k: nat :| && k <= |s| && k <= |t| && s[..k] == t[..k]
        && ((k == |s| && k < |t|) || (k < |s| && k < |t| && s[k] < t[k]));
      assert s[1..][..k - 1] == s[..k][1..] == t[..k][1..] == t[1..][..k - 1];
    }
  }

  ghost predicate IsNumber(v: Value) {
    v.Int? || v.Float?
  }

  /** The real a number stands for; NaN stands for none. */
  ghost function Real(v: Value): Double
    requires IsNumber(v)
  {
    if v.Int? then Num(v.n as real) else v.d
  }

  /** Numbers of either kind compare as the reals they stand for, strings and paths byte by
      byte, and nothing else compares except lists. */
  lemma ScalarLessMeans(v: Value, w: Value)
    ensures IsNumber(v) && IsNumber(w) ==>
      Less(v, w) == if Real(v).Num? && Real(w).Num? && Real(v).x < Real(w).x then Yes else No
    ensures v.Str? && w.Str? ==> Less(v, w) == if Before(v.s, w.s) then Yes else No
    ensures v.Path? && w.Path? ==> Less(v, w) == if Before(v.s, w.s) then Yes else No
    ensures Less(v, w) == Cannot && !(v.List? && w.List?) <==>
      !((IsNumber(v) && IsNumber(w)) || (v.Str? && w.Str?) || (v.Path? && w.Path?) || (v.List? && w.List?))
  {
    if (v.Str? && w.Str?) || (v.Path? && w.Path?) {
      BytesLessMeans(v.s, w.s);
    }
    if v.Int? && w.Int? {
      assert v.n < w.n <==> v.n as real < w.n as real;
    }
  }

  /** Adding a positive number makes an integer greater. */
  lemma MoreIsGreater(n: int, more: int)
    requires more > 0
    ensures Less(Int(n), Int(n + more)) == Yes && Less(Int(n + more), Int(n)) == No
  {
  }

  /** The elements before position `k` are equal, and there one list ends or they are not. */
  ghost predicate DifferAt(xs: seq<Cell>, ys: seq<Cell>, k: nat) {
    && k <= |xs| && k <= |ys| && (forall i :: 0 <= i < k ==> Same(xs[i].v, ys[i].v))
    && (k == |xs| || k == |ys| || !Same(xs[k].v, ys[k].v))
  }

  /** The first position where two lists are not equal decides; a proper prefix is less. */
  lemma {:induction false} ListLessMeans(xs: seq<Cell>, ys: seq<Cell>, k: nat)
    requires DifferAt(xs, ys, k)
    ensures Less(List(xs), List(ys)) ==
      if k == |ys| then No else if k == |xs| then Yes else Less(xs[k].v, ys[k].v)
  {
    ListLessFrom(xs, ys, 0, k);
  }

  lemma {:induction false} ListLessFrom(xs: seq<Cell>, ys: seq<Cell>, i: nat, k: nat)
    requires DifferAt(xs, ys, k) && i <= k
    ensures ListLess(List(xs), xs, ys, i) ==
      if k == |ys| then No else if k == |xs| then Yes else Less(xs[k].v, ys[k].v)
    decreases k - i
  {
    if i < k {
      ListLessFrom(xs, ys, i + 1, k);
    }
  }

  /** There always is such a position. */
  lemma {:induction false} SomewhereDiffer(xs: seq<Cell>, ys: seq<Cell>, i: nat) returns (k: nat)
    requires i <= |xs| && i <= |ys| && forall j :: 0 <= j < i ==> Same(xs[j].v, ys[j].v)
    ensures DifferAt(xs, ys, k)
    decreases |xs| - i
  {
    if i < |xs| && i < |ys| && Same(xs[i].v, ys[i].v) {
      k := SomewhereDiffer(xs, ys, i + 1);
    } else {
      k := i;
    }
  }

  /** So a list is less exactly if it is a proper prefix up to equality, or less at the first
      position that is not equal. */
  lemma ListLessExactly(xs: seq<Cell>, ys: seq<Cell>)
    ensures Less(List(xs), List(ys)) == Yes <==>
      exists k: nat :: DifferAt(xs, ys, k) && k < |ys| && (k == |xs| || Less(xs[k].v, ys[k].v) == Yes)
  {
    var k := SomewhereDiffer(xs, ys, 0);
    ListLessMeans(xs, ys, k);
    forall j: nat | DifferAt(xs, ys, j)
      ensures j == k
    {
    }
  }

  /* Equal values compare alike */

  lemma {:induction false} LessCongruent(u: Value, v: Value, w: Value)
    requires Plain(u) && Plain(v) && Plain(w) && Same(u, v)
    ensures Less(u, w) == Less(v, w)
    ensures Less(w, u) == Less(w, v)
    decreases u, 1
  {
    match (u, v, w)
    case (List(xs), List(ys), List(zs)) =>
      ListCongruent(xs, ys, zs, 0);
    case _ =>
  }

  lemma {:induction false} ListCongruent(xs: seq<Cell>, ys: seq<Cell>, zs: seq<Cell>, i: nat)
    requires Plain(List(xs)) && Plain(List(ys)) && Plain(List(zs)) && Same(List(xs), List(ys))
    requires i <= |xs| && i <= |zs|
    ensures ListLess(List(xs), xs, zs, i) == ListLess(List(ys), ys, zs, i)
    ensures ListLess(List(zs), zs, xs, i) == ListLess(List(zs), zs, ys, i)
    decreases List(xs), 0, |xs| - i
  {
    if i < |xs| && i < |zs| {
      var x, y, z := xs[i].v, ys[i].v, zs[i].v;
      assert Plain(x) && Plain(y) && Plain(z) && Same(x, y) && |xs| == |ys|;
      hide Plain, Same, Less;
      SameSymmetric(x, y);
      SameEither(x, y, z);
      SameEither(y, x, z);
      LessCongruent(x, y, z);
      ListCongruent(xs, ys, zs, i + 1);
    }
  }

  lemma SameEither(x: Value, y: Value, z: Value)
    requires Plain(x) && Plain(y) && Plain(z) && Same(x, y)
    ensures Same(y, z) ==> Same(x, z)
    ensures Same(z, y) ==> Same(z, x)
  {
    SameSymmetric(x, y);
    if Same(y, z) {
      SameTransitive(x, y, z);
    }
    if Same(z, y) {
      SameTransitive(z, y, x);
    }
  }

  /* Irreflexivity and asymmetry */

  lemma {:induction false} LessIrreflexive(v: Value)
    requires Plain(v)
    ensures Less(v, v) != Yes
  {
    match v
    case Str(s) => BytesTotal(s, s);
    case Path(_, s) => BytesTotal(s, s);
    case List(xs) => ListIrreflexive(xs, 0);
    case _ =>
  }

  lemma {:induction false} ListIrreflexive(xs: seq<Cell>, i: nat)
    requires Plain(List(xs)) && i <= |xs|
    ensures ListLess(List(xs), xs, xs, i) == No
    decreases |xs| - i
  {
    if i < |xs| {
      SameReflexive(xs[i].v);
      ListIrreflexive(xs, i + 1);
    }
  }

  /** Comparability is mutual, and at most one of two comparable values is less. */
  lemma {:induction false} LessAsymmetric(v: Value, w: Value)
    requires Plain(v) && Plain(w)
    ensures Less(v, w) == Cannot <==> Less(w, v) == Cannot
    ensures !(Less(v, w) == Yes && Less(w, v) == Yes)
    decreases v, 1
  {
    match (v, w)
    case (Str(s), Str(t)) => BytesTotal(s, t);
    case (Path(_, s), Path(_, t)) => BytesTotal(s, t);
    case (List(xs), List(ys)) => ListAsymmetric(xs, ys, 0);
    case _ =>
  }

  lemma {:induction false} ListAsymmetric(xs: seq<Cell>, ys: seq<Cell>, i: nat)
    requires Plain(List(xs)) && Plain(List(ys)) && i <= |xs| && i <= |ys|
    ensures var p, q := ListLess(List(xs), xs, ys, i), ListLess(List(ys), ys, xs, i);
      (p == Cannot <==> q == Cannot) && !(p == Yes && q == Yes)
    decreases List(xs), 0, |xs| - i
  {
    if i < |xs| && i < |ys| {
      SameBoth(xs[i].v, ys[i].v);
      if Same(xs[i].v, ys[i].v) {
        ListAsymmetric(xs, ys, i + 1);
      } else {
        LessAsymmetric(xs[i].v, ys[i].v);
      }
    }
  }

  lemma SameBoth(v: Value, w: Value)
    ensures Same(v, w) <==> Same(w, v)
  {
    if Same(v, w) {
      SameSymmetric(v, w);
    }
    if Same(w, v) {
      SameSymmetric(w, v);
    }
  }

  /* Equal values are not less */

  lemma {:induction false} SameNotLess(v: Value, w: Value)
    requires Plain(v) && Plain(w) && Same(v, w)
    ensures Less(v, w) != Yes
  {
    LessCongruent(v, w, w);
    LessIrreflexive(w);
  }

  /* Transitivity, with no restriction on the shapes */

  lemma {:induction false} LessTransitive(u: Value, v: Value, w: Value)
    requires Plain(u) && Plain(v) && Plain(w)
    requires Less(u, v) == Yes && Less(v, w) == Yes
    ensures Less(u, w) == Yes
    decreases u, 1
  {
    match (u, v, w)
    case (Str(r), Str(s), Str(t)) => BytesTransitive(r, s, t);
    case (Path(_, r), Path(_, s), Path(_, t)) => BytesTransitive(r, s, t);
    case (List(xs), List(ys), List(zs)) => ListTransitive(xs, ys, zs, 0);
    case _ =>
  }

  lemma {:induction false} ListTransitive(xs: seq<Cell>, ys: seq<Cell>, zs: seq<Cell>, i: nat)
    requires Plain(List(xs)) && Plain(List(ys)) && Plain(List(zs)) && i <= |xs| && i <= |ys| && i <= |zs|
    requires ListLess(List(xs), xs, ys, i) == Yes && ListLess(List(ys), ys, zs, i) == Yes
    ensures ListLess(List(xs), xs, zs, i) == Yes
    decreases List(xs), 0, |xs| - i
  {
    if i < |xs| {
      var x, y, z := xs[i].v, ys[i].v, zs[i].v;
      if Same(x, y) && Same(y, z) {
        SameTransitive(x, y, z);
        ListTransitive(xs, ys, zs, i + 1);
      } else {
        ElementTransitive(x, y, z);
      }
    }
  }

  /** The deciding position: not all of the three elements are equal. */
  lemma {:induction false} ElementTransitive(x: Value, y: Value, z: Value)
    requires Plain(x) && Plain(y) && Plain(z) && !(Same(x, y) && Same(y, z))
    requires Same(x, y) || Less(x, y) == Yes
    requires Same(y, z) || Less(y, z) == Yes
    ensures !Same(x, z) && Less(x, z) == Yes
    decreases x, 2
  {
    if Same(x, y) {
      LessCongruent(x, y, z);
    } else if Same(y, z) {
      LessCongruent(y, z, x);
    } else {
      LessTransitive(x, y, z);
    }
    if Same(x, z) {
      SameNotLess(x, z);
    }
  }

  /* Consistency with equality */

  /** Of two comparable values, exactly one of less, equal and greater holds, unless the
      comparison comes down to foreign paths, and then none does. */
  lemma {:induction false} Trichotomy(v: Value, w: Value)
    requires Plain(v) && Plain(w) && Less(v, w) != Cannot
    ensures !(Less(v, w) == Yes && Less(w, v) == Yes)
    ensures Same(v, w) ==> Less(v, w) == No && Less(w, v) == No
    ensures Less(v, w) == Yes || Same(v, w) || Less(w, v) == Yes <==> !ForeignPaths(v, w)
    decreases v, 1
  {
    LessAsymmetric(v, w);
    match (v, w)
    case (Str(s), Str(t)) => BytesTotal(s, t);
    case (Path(_, s), Path(_, t)) => BytesTotal(s, t);
    case (List(xs), List(ys)) =>
      ListTrichotomy(xs, ys, 0);
      assert Same(v, w) <==> SameFrom(xs, ys, 0);
    case _ =>
  }

  ghost predicate SameFrom(xs: seq<Cell>, ys: seq<Cell>, i: nat) {
    |xs| == |ys| && forall k :: i <= k < |xs| ==> Same(xs[k].v, ys[k].v)
  }

  lemma {:induction false} ListTrichotomy(xs: seq<Cell>, ys: seq<Cell>, i: nat)
    requires Plain(List(xs)) && Plain(List(ys)) && i <= |xs| && i <= |ys|
    requires ListLess(List(xs), xs, ys, i) != Cannot
    ensures var p, q := ListLess(List(xs), xs, ys, i), ListLess(List(ys), ys, xs, i);
      && (SameFrom(xs, ys, i) ==> p == No && q == No)
      && (p == Yes || SameFrom(xs, ys, i) || q == Yes <==> !ForeignIn(List(xs), xs, ys, i))
    decreases List(xs), 0, |xs| - i
  {
    if i < |xs| && i < |ys| {
      SameBoth(xs[i].v, ys[i].v);
      if Same(xs[i].v, ys[i].v) {
        ListTrichotomy(xs, ys, i + 1);
        assert SameFrom(xs, ys, i) <==> SameFrom(xs, ys, i + 1);
      } else {
        Trichotomy(xs[i].v, ys[i].v);
        assert !SameFrom(xs, ys, i);
      }
    }
  }

  /* Values of one shape */

  datatype Shape = Ints | Strings | PathsOf(accessor: nat) | ListsOf(shape: Shape)

  ghost predicate HasShape(v: Value, shape: Shape)
    decreases shape
  {
    match (v, shape)
    case (Int(_), Ints) => true
    case (Str(_), Strings) => true
    case (Path(a, _), PathsOf(b)) => a == b
    case (List(xs), ListsOf(inner)) => forall i :: 0 <= i < |xs| ==> HasShape(xs[i].v, inner)
    case _ => false
  }

  lemma {:induction false} ShapeComparable(v: Value, w: Value, shape: Shape)
    requires HasShape(v, shape) && HasShape(w, shape)
    ensures Plain(v) && Plain(w) && Less(v, w) != Cannot && !ForeignPaths(v, w)
    decreases shape, 0
  {
    match (v, w)
    case (List(xs), List(ys)) =>
      forall i | 0 <= i < |xs|
        ensures Plain(xs[i].v)
      {
        ShapeComparable(xs[i].v, xs[i].v, shape.shape);
      }
      forall i | 0 <= i < |ys|
        ensures Plain(ys[i].v)
      {
        ShapeComparable(ys[i].v, ys[i].v, shape.shape);
      }
      ShapeLists(xs, ys, shape.shape, 0);
    case _ =>
  }

  lemma {:induction false} ShapeLists(xs: seq<Cell>, ys: seq<Cell>, shape: Shape, i: nat)
    requires HasShape(List(xs), ListsOf(shape)) && HasShape(List(ys), ListsOf(shape)) && i <= |xs| && i <= |ys|
    ensures ListLess(List(xs), xs, ys, i) != Cannot && !ForeignIn(List(xs), xs, ys, i)
    decreases shape, 1, |xs| - i
  {
    if i < |xs| && i < |ys| {
      if Same(xs[i].v, ys[i].v) {
        ShapeLists(xs, ys, shape, i + 1);
      } else {
        ShapeComparable(xs[i].v, ys[i].v, shape);
      }
    }
  }

  /** On values of one shape the order is a strict total order consistent with equality. */
  lemma ShapeOrder(u: Value, v: Value, w: Value, shape: Shape)
    requires HasShape(u, shape) && HasShape(v, shape) && HasShape(w, shape)
    ensures Less(u, u) == No
    ensures Less(u, v) == Yes && Less(v, w) == Yes ==> Less(u, w) == Yes
    ensures Less(u, v) == Yes || Same(u, v) || Less(v, u) == Yes
    ensures !(Less(u, v) == Yes && Less(v, u) == Yes) && !(Less(u, v) == Yes && Same(u, v)) &&
      !(Less(v, u) == Yes && Same(u, v))
  {
    ShapeComparable(u, u, shape);
    ShapeComparable(u, v, shape);
    ShapeComparable(v, w, shape);
    hide Less, Same, Plain, HasShape, ForeignPaths;
    LessIrreflexive(u);
    Trichotomy(u, v);
    if Less(u, v) == Yes && Less(v, w) == Yes {
      LessTransitive(u, v, w);
    }
  }

  /* The order as it is: elements of lists are compared by `eqValues` first */

  /** `CompareValues` on all values, functions, sets and floats included, and with what
      elements of lists throw when they are forced. */
  ghost function Order(v: Value, w: Value): Cmp
    decreases v, 1
  {
    match (v, w)
    case (List(xs), List(ys)) => OrderLists(v, xs, ys, 0)
    case (List(_), _) => Cannot
    case _ => Less(v, w)
  }

  ghost function OrderLists(v: Value, xs: seq<Cell>, ys: seq<Cell>, i: nat): Cmp
    requires v == List(xs) && i <= |xs| && i <= |ys|
    decreases v, 0, |xs| - i
  {
    if i == |ys| then No
    else if i == |xs| then Yes
    else
      match Answer(xs[i], ys[i])
      case Throws(error) => Cmp.Raises(error)
      case Done(same) => if same then OrderLists(v, xs, ys, i + 1) else Order(xs[i].v, ys[i].v)
  }

  /** Data in memory. */
  ghost predicate SharedData(a: Cell, mem: nat -> Value) {
    InMemory(a, mem) && Plain(a.v) && Wf(a.v)
  }

  /** On data in memory, addresses do not matter to the order. */
  lemma {:induction false} OrderIsLess(a: Cell, b: Cell, mem: nat -> Value)
    requires SharedData(a, mem) && SharedData(b, mem)
    ensures Order(a.v, b.v) == Less(a.v, b.v)
    decreases a.v, 1
  {
    match (a.v, b.v)
    case (List(xs), List(ys)) => OrderListsIsLess(a.v, xs, ys, 0, mem);
    case _ =>
  }

  lemma {:induction false} OrderListsIsLess(v: Value, xs: seq<Cell>, ys: seq<Cell>, i: nat, mem: nat -> Value)
    requires v == List(xs) && i <= |xs| && i <= |ys|
    requires forall k :: 0 <= k < |xs| ==> SharedData(xs[k], mem)
    requires forall k :: 0 <= k < |ys| ==> SharedData(ys[k], mem)
    ensures OrderLists(v, xs, ys, i) == ListLess(v, xs, ys, i)
    decreases v, 0, |xs| - i
  {
    if i < |xs| && i < |ys| {
      AnswerOnData(xs[i], ys[i]);
      AddressesDoNotMatter(xs[i], ys[i], mem);
      OrderIsLess(xs[i], ys[i], mem);
      OrderListsIsLess(v, xs, ys, i + 1, mem);
    }
  }

  /** `CompareValues`. */
  method CompareValues(a: Cell, b: Cell) returns (r: Cmp)
    requires Wf(a.v) && Wf(b.v)
    ensures r == Order(a.v, b.v)
    decreases a
  {
    match (a.v, b.v)
    case (Float(x), Int(y)) => return FromBool(DoubleLess(x, Num(y as real)));
    case (Int(x), Float(y)) => return FromBool(DoubleLess(Num(x as real), y));
    case (Int(x), Int(y)) => return FromBool(x < y);
    case (Float(x), Float(y)) => return FromBool(DoubleLess(x, y));
    case (Str(x), Str(y)) => return FromBool(BytesLess(x, y));
    case (Path(_, x), Path(_, y)) => return FromBool(BytesLess(x, y));
    case (List(xs), List(ys)) =>
      var i := 0;
      while true
        invariant i <= |xs| && i <= |ys|
        invariant OrderLists(a.v, xs, ys, i) == Order(a.v, b.v)
        decreases |xs| - i
      {
        if i == |ys| {
          return No;
        } else if i == |xs| {
          return Yes;
        }
        var same := EqValues(xs[i], ys[i]);
        if same.Throws? {
          return Cmp.Raises(same.error);
        }
        if !same.value {
          r := CompareValues(xs[i], ys[i]);
          return;
        }
        i := i + 1;
      }
    case _ => return Cannot;
  }

  /** Two paths spelled `/` under different accessors: neither less nor equal. */
  lemma ForeignPathsFail()
    ensures var v, w := Path(0, [47]), Path(1, [47]);
      ForeignPaths(v, w) && Less(v, w) == No && Less(w, v) == No && !Same(v, w)
  {
    BytesTotal([47], [47]);
  }
}
