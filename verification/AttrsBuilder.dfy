/** Building the set of an attribute set expression in an array. */
module AttrsBuilder {
  import opened Common
  import opened Outcomes
  import opened Bindings

  /* Lists that are not sorted yet */

  ghost predicate DistinctNames(xs: seq<Attr>) {
    forall i, j :: 0 <= i < j < |xs| ==> xs[i].name != xs[j].name
  }

  lemma {:induction false} NameInMap(xs: seq<Attr>, i: nat)
    requires i < |xs|
    ensures xs[i].name in MapOf(xs)
  {
    if i < |xs| - 1 {
      NameInMap(xs[..|xs| - 1], i);
    }
  }

  lemma PushDistinct(xs: seq<Attr>, a: Attr)
    requires DistinctNames(xs) && a.name !in MapOf(xs)
    ensures DistinctNames(xs + [a])
  {
    forall i | 0 <= i < |xs|
      ensures xs[i].name != a.name
    {
      NameInMap(xs, i);
    }
  }

  /** Replacing an attribute in place replaces it in the meaning. */
  lemma {:induction false} ReplaceMeans(xs: seq<Attr>, i: nat, a: Attr)
    requires DistinctNames(xs) && i < |xs| && xs[i].name == a.name
    ensures MapOf(xs[i := a]) == MapOf(xs)[a.name := a.value]
  {
    var n := |xs| - 1;
    if i == n {
      assert xs[i := a][..n] == xs[..n];
    } else {
      assert xs[i := a][..n] == xs[..n][i := a];
      ReplaceMeans(xs[..n], i, a);
    }
  }

  /* Sorting */

  predicate Precedes(a: Attr, b: Attr) {
    a.name < b.name || (a.name == b.name && a.value < b.value)
  }

  /** Put an attribute in its place in a sorted list. */
  function InsertSorted(xs: seq<Attr>, a: Attr): seq<Attr> {
    if xs == [] || Precedes(xs[|xs| - 1], a) then xs + [a]
    else InsertSorted(xs[..|xs| - 1], a) + [xs[|xs| - 1]]
  }

  /** The list in the order of `Precedes`. */
  function SortAttrs(xs: seq<Attr>): seq<Attr> {
    if xs == [] then [] else InsertSorted(SortAttrs(xs[..|xs| - 1]), xs[|xs| - 1])
  }

  ghost predicate Ordered(xs: seq<Attr>) {
    forall i, j :: 0 <= i < j < |xs| ==> Precedes(xs[i], xs[j])
  }

  lemma {:induction false} InsertContent(xs: seq<Attr>, a: Attr)
    ensures multiset(InsertSorted(xs, a)) == multiset(xs) + multiset{a}
  {
    if xs != [] && !Precedes(xs[|xs| - 1], a) {
      InsertContent(xs[..|xs| - 1], a);
      assert xs == xs[..|xs| - 1] + [xs[|xs| - 1]];
    }
  }

  lemma Inserted(xs: seq<Attr>, a: Attr, i: nat)
    requires i < |InsertSorted(xs, a)|
    ensures InsertSorted(xs, a)[i] == a || InsertSorted(xs, a)[i] in xs
  {
    InsertContent(xs, a);
    assert InsertSorted(xs, a)[i] in multiset(InsertSorted(xs, a));
  }

  lemma {:induction false} InsertOrdered(xs: seq<Attr>, a: Attr)
    requires Ordered(xs) && a !in xs
    ensures Ordered(InsertSorted(xs, a))
  {
    if xs != [] {
      var ys, last := xs[..|xs| - 1], xs[|xs| - 1];
      assert last in xs;
      if !Precedes(last, a) {
        InsertOrdered(ys, a);
        forall i | 0 <= i < |InsertSorted(ys, a)|
          ensures Precedes(InsertSorted(ys, a)[i], last)
        {
          Inserted(ys, a, i);
        }
      }
    }
  }

  /** Sorting a list without repeated attributes orders it and loses nothing. */
  lemma {:induction false} SortSorts(xs: seq<Attr>)
    requires forall i, j :: 0 <= i < j < |xs| ==> xs[i] != xs[j]
    ensures Ordered(SortAttrs(xs)) && multiset(SortAttrs(xs)) == multiset(xs)
  {
    if xs != [] {
      var ys, last := xs[..|xs| - 1], xs[|xs| - 1];
      assert xs == ys + [last];
      SortSorts(ys);
      assert last !in SortAttrs(ys) by {
        assert last !in multiset(ys);
      }
      InsertOrdered(SortAttrs(ys), last);
      InsertContent(SortAttrs(ys), last);
    }
  }

  lemma {:induction false} InsertMeans(xs: seq<Attr>, a: Attr)
    requires a.name !in MapOf(xs)
    ensures MapOf(InsertSorted(xs, a)) == MapOf(xs)[a.name := a.value]
  {
    if xs == [] || Precedes(xs[|xs| - 1], a) {
      MapOfPush(xs, a);
    } else {
      var ys, last := xs[..|xs| - 1], xs[|xs| - 1];
      NameInMap(xs, |xs| - 1);
      InsertMeans(ys, a);
      MapOfPush(InsertSorted(ys, a), last);
    }
  }

  /** Sorting a list with distinct names sorts it by name and keeps what it means. */
  lemma {:induction false} SortMeans(xs: seq<Attr>)
    requires DistinctNames(xs)
    ensures Sorted(SortAttrs(xs)) && MapOf(SortAttrs(xs)) == MapOf(xs) && |SortAttrs(xs)| == |xs|
  {
    SortKeepsMap(xs);
    SortSorts(xs);
    var r := SortAttrs(xs);
    assert |multiset(r)| == |r| && |multiset(xs)| == |xs|;
    forall i, j | 0 <= i < j < |r|
      ensures r[i].name < r[j].name
    {
      OnceInMultiset(xs, r, i, j);
    }
  }

  /** Two places of a rearranged list come from two places of the original. */
  lemma OnceInMultiset(xs: seq<Attr>, r: seq<Attr>, i: nat, j: nat)
    requires multiset(xs) == multiset(r) && i < j < |r| && DistinctNames(xs) && Precedes(r[i], r[j])
    ensures r[i].name != r[j].name
  {
    assert r[i] in multiset(r) && r[j] in multiset(r);
    assert r[i] in xs && r[j] in xs;
  }

  lemma {:induction false} SortKeepsMap(xs: seq<Attr>)
    requires DistinctNames(xs)
    ensures MapOf(SortAttrs(xs)) == MapOf(xs)
  {
    if xs != [] {
      var ys, last := xs[..|xs| - 1], xs[|xs| - 1];
      SortKeepsMap(ys);
      if last.name in MapOf(ys) {
        var i := MapOfOnly(ys, last.name);
      }
      InsertMeans(SortAttrs(ys), last);
    }
  }

  /* The builder */

  /** A buffer of attributes with a fixed capacity. */
  class BindingsBuilder {
    var attrs: array<Attr>
    var numAttrs: nat

    ghost predicate Valid()
      reads this
    {
      numAttrs <= attrs.Length
    }

    ghost function Contents(): seq<Attr>
      requires Valid()
      reads this, attrs
    {
      attrs[..numAttrs]
    }

    constructor (capacity: nat)
      ensures Valid() && fresh(attrs) && attrs.Length == capacity && Contents() == []
    {
      attrs, numAttrs := new Attr[capacity], 0;
    }

    /** `push_back`; the precondition is its assertion. */
    method Insert(a: Attr)
      requires Valid() && numAttrs < attrs.Length
      modifies `numAttrs, attrs
      ensures Valid() && Contents() == old(Contents()) + [a]
      ensures forall i :: numAttrs <= i < attrs.Length ==> attrs[i] == old(attrs[i])
    {
      attrs[numAttrs] := a;
      numAttrs := numAttrs + 1;
    }

    method Replace(i: nat, a: Attr)
      requires Valid() && i < numAttrs
      modifies attrs
      ensures Contents() == old(Contents())[i := a]
    {
      attrs[i] := a;
    }

    /** `grow`: move to a larger buffer. */
    method Grow(capacity: nat)
      requires Valid() && numAttrs <= capacity
      modifies `attrs
      ensures Valid() && fresh(attrs) && attrs.Length == capacity && Contents() == old(Contents())
    {
      var larger := new Attr[capacity];
      for i := 0 to numAttrs
        invariant attrs == old(attrs) && larger[..i] == attrs[..i]
      {
        larger[i] := attrs[i];
      }
      attrs := larger;
    }

    /** `Bindings::sort`. */
    method Sort()
      requires Valid() && DistinctNames(Contents())
      modifies attrs
      ensures Contents() == SortAttrs(old(Contents()))
    {
      var sorted := SortAttrs(attrs[..numAttrs]);
      SortMeans(attrs[..numAttrs]);
      for i := 0 to numAttrs
        invariant attrs[..i] == sorted[..i]
      {
        attrs[i] := sorted[i];
      }
    }

    /** `get`, which is right only on a sorted buffer. */
    method Lookup(name: Symbol) returns (r: Option<Value>)
      requires Valid() && Sorted(Contents())
      ensures r == Find(MapOf(Contents()), name)
    {
      r := GetInChunk(attrs[..numAttrs], name);
    }
  }

  /* Attribute set expressions */

  /** A dynamic attribute: what its name evaluates to, where null is none, and its value. */
  datatype Dynamic = Dynamic(name: Outcome<Option<Symbol>, Exception>, value: Value)

  datatype Result<+T> = Ok(value: T) | Failed(error: Exception) | AlreadyDefined(name: Symbol)

  predicate Named(d: Dynamic, name: Symbol) {
    d.name == Done(Some(name))
  }

  /** A set extended by the first `k` dynamic attributes. */
  ghost function Defined(base: map<Symbol, Value>, ds: seq<Dynamic>, k: nat): map<Symbol, Value>
    requires k <= |ds|
  {
    if k == 0 then base
    else
      var before := Defined(base, ds, k - 1);
      var d := ds[k - 1];
      if d.name.Done? && d.name.value.Some? then before[d.name.value.value := d.value] else before
  }

  /** A dynamic attribute is fine: its name evaluates, and is null or not defined yet. */
  ghost predicate Fine(base: map<Symbol, Value>, ds: seq<Dynamic>, k: nat)
    requires k < |ds|
  {
    ds[k].name.Done? && (ds[k].name.value.Some? ==> ds[k].name.value.value !in Defined(base, ds, k))
  }

  /** What a dynamic attribute that is not fine throws. */
  function FailureOf<T>(d: Dynamic): Result<T>
    requires d.name.Done? ==> d.name.value.Some?
  {
    if d.name.Throws? then Failed(d.name.error) else AlreadyDefined(d.name.value.value)
  }

  /** The dynamic attribute at which evaluation fails. */
  ghost predicate FailsAt(base: map<Symbol, Value>, ds: seq<Dynamic>, k: nat) {
    k < |ds| && !Fine(base, ds, k) && forall j :: 0 <= j < k ==> Fine(base, ds, j)
  }

  /** The names defined are those of the base and of the dynamic attributes. */
  lemma {:induction false} DefinedNames(base: map<Symbol, Value>, ds: seq<Dynamic>, k: nat, name: Symbol)
    requires k <= |ds|
    ensures name in Defined(base, ds, k) <==> name in base || exists j :: 0 <= j < k && Named(ds[j], name)
  {
    if k > 0 {
      DefinedNames(base, ds, k - 1, name);
      assert Named(ds[k - 1], name) || !Named(ds[k - 1], name);
    }
  }

  /** When every dynamic attribute is fine, each keeps its own value and the base is kept. */
  lemma {:induction false} DefinedValues(base: map<Symbol, Value>, ds: seq<Dynamic>, k: nat, name: Symbol)
    requires k <= |ds| && forall j :: 0 <= j < k ==> Fine(base, ds, j)
    ensures name in base ==> Find(Defined(base, ds, k), name) == Some(base[name])
    ensures forall j :: 0 <= j < k && Named(ds[j], name) ==>
              name !in base && Find(Defined(base, ds, k), name) == Some(ds[j].value)
  {
    if k > 0 {
      DefinedValues(base, ds, k - 1, name);
      assert Fine(base, ds, k - 1);
      DefinedNames(base, ds, k - 1, name);
    }
  }

  lemma FineHere(base: map<Symbol, Value>, ds: seq<Dynamic>, k: nat)
    requires k < |ds|
    ensures Fine(base, ds, k) <==>
              ds[k].name.Done? && forall n :: Named(ds[k], n) ==>
                                     n !in base && forall j :: 0 <= j < k ==> !Named(ds[j], n)
  {
    if ds[k].name.Done? && ds[k].name.value.Some? {
      var n := ds[k].name.value.value;
      DefinedNames(base, ds, k, n);
      assert Named(ds[k], n);
    }
  }

  /** Every dynamic attribute is fine exactly when all names evaluate, the names that are not
      null are pairwise distinct, and none is in the base. */
  lemma FineExactly(base: map<Symbol, Value>, ds: seq<Dynamic>)
    ensures (forall k :: 0 <= k < |ds| ==> Fine(base, ds, k)) <==>
              && (forall k :: 0 <= k < |ds| ==> ds[k].name.Done?)
              && (forall k, n :: 0 <= k < |ds| && Named(ds[k], n) ==> n !in base)
              && (forall j, k, n :: 0 <= j < k < |ds| && Named(ds[j], n) ==> !Named(ds[k], n))
  {
    hide Fine;
    forall k | 0 <= k < |ds|
      ensures Fine(base, ds, k) <==>
                ds[k].name.Done? && forall n :: Named(ds[k], n) ==>
                                       n !in base && forall j :: 0 <= j < k ==> !Named(ds[j], n)
    {
      FineHere(base, ds, k);
    }
  }

  lemma DuplicateExactly(base: map<Symbol, Value>, ds: seq<Dynamic>, k: nat, name: Symbol)
    requires FailsAt(base, ds, k) && Named(ds[k], name)
    ensures name in base || exists j :: 0 <= j < k && Named(ds[j], name)
  {
    DefinedNames(base, ds, k, name);
  }

  /** What the static attributes and `__overrides` define. */
  ghost function Base(statics: seq<Attr>, overrides: Option<seq<Attr>>): map<Symbol, Value> {
    if overrides.None? then MapOf(statics) else MapOf(statics) + MapOf(overrides.value)
  }

  /** The displacement of a name among the static attributes: its index in their order. */
  method FindDispl(statics: seq<Attr>, name: Symbol) returns (displ: Option<nat>)
    requires Sorted(statics)
    ensures displ.Some? <==> name in MapOf(statics)
    ensures displ.Some? ==> displ.value < |statics| && statics[displ.value].name == name
  {
    var lo, hi := 0, |statics|;
    while lo < hi
      invariant 0 <= lo <= hi <= |statics|
      invariant forall i :: 0 <= i < lo ==> statics[i].name < name
      invariant forall i :: hi <= i < |statics| ==> name <= statics[i].name
    {
      var mid := (lo + hi) / 2;
      if statics[mid].name < name {
        lo := mid + 1;
      } else {
        hi := mid;
      }
    }
    if lo < |statics| && statics[lo].name == name {
      NameInMap(statics, lo);
      return Some(lo);
    }
    if name in MapOf(statics) {
      var i := MapOfOnly(statics, name);
    }
    displ := None;
  }

  /** The static attributes, and for a recursive set their values in its new frame. */
  method InsertStatics(statics: seq<Attr>, builder: BindingsBuilder, env: array<Value>)
    requires Sorted(statics) && builder.Valid() && builder.Contents() == [] && |statics| <= builder.attrs.Length
    requires env.Length == |statics|
    modifies builder`numAttrs, builder.attrs, env
    ensures builder.Valid() && builder.Contents() == statics
    ensures forall i :: 0 <= i < |statics| ==> env[i] == statics[i].value
  {
    for displ := 0 to |statics|
      invariant builder.Valid() && builder.Contents() == statics[..displ]
      invariant forall i :: 0 <= i < displ ==> env[i] == statics[i].value
    {
      env[displ] := statics[displ].value;
      builder.Insert(statics[displ]);
    }
  }

  /** The state while overrides are applied: the static attributes are still where their
      displacements say, and the frame agrees with them. */
  ghost predicate Overriding(contents: seq<Attr>, statics: seq<Attr>, over: seq<Attr>, k: nat) {
    && k <= |over| && |statics| <= |contents| <= |statics| + k
    && DistinctNames(contents) && MapOf(contents) == Base(statics, Some(over[..k]))
    && forall i :: 0 <= i < |statics| ==> contents[i].name == statics[i].name
  }

  lemma StartOverriding(statics: seq<Attr>, over: seq<Attr>)
    requires Sorted(statics)
    ensures Overriding(statics, statics, over, 0)
  {
  }

  lemma OverrideReplaces(contents: seq<Attr>, statics: seq<Attr>, over: seq<Attr>, k: nat, displ: nat)
    requires Overriding(contents, statics, over, k) && k < |over|
    requires displ < |statics| && statics[displ].name == over[k].name
    ensures Overriding(contents[displ := over[k]], statics, over, k + 1)
  {
    ReplaceMeans(contents, displ, over[k]);
    MapOfNext(over, k);
  }

  lemma OverrideAdds(contents: seq<Attr>, statics: seq<Attr>, over: seq<Attr>, k: nat)
    requires Overriding(contents, statics, over, k) && k < |over| && Sorted(over)
    requires over[k].name !in MapOf(statics)
    ensures Overriding(contents + [over[k]], statics, over, k + 1)
  {
    NotYet(over, k, over[k].name);
    PushDistinct(contents, over[k]);
    MapOfPush(contents, over[k]);
    MapOfNext(over, k);
  }

  /** Replace the overridden attributes in place, in the set and in the frame, and append the
      new ones. */
  method ApplyOverrides(statics: seq<Attr>, over: seq<Attr>, builder: BindingsBuilder, env: array<Value>)
    requires Sorted(statics) && Sorted(over) && builder.Valid() && builder.Contents() == statics
    requires |statics| + |over| <= builder.attrs.Length && env.Length == |statics|
    requires forall i :: 0 <= i < |statics| ==> env[i] == statics[i].value
    modifies builder`numAttrs, builder.attrs, env
    ensures builder.Valid() && Overriding(builder.Contents(), statics, over, |over|)
    ensures forall i :: 0 <= i < |statics| ==> env[i] == builder.Contents()[i].value
  {
    StartOverriding(statics, over);
    for k := 0 to |over|
      invariant builder.Valid() && Overriding(builder.Contents(), statics, over, k)
      invariant forall i :: 0 <= i < |statics| ==> env[i] == builder.Contents()[i].value
    {
      var displ := FindDispl(statics, over[k].name);
      ghost var before := builder.Contents();
      if displ.Some? {
        OverrideReplaces(before, statics, over, k, displ.value);
        builder.Replace(displ.value, over[k]);
        env[displ.value] := over[k].value;
      } else {
        OverrideAdds(before, statics, over, k);
        builder.Insert(over[k]);
      }
    }
  }

  /** The state while dynamic attributes are added: `sort` says whether the buffer may be out
      of order. */
  ghost predicate Adding(contents: seq<Attr>, sort: bool, m: map<Symbol, Value>) {
    DistinctNames(contents) && MapOf(contents) == m && (!sort ==> Sorted(contents))
  }

  lemma AddOne(contents: seq<Attr>, m: map<Symbol, Value>, a: Attr)
    requires Adding(contents, false, m) && a.name !in m
    ensures Adding(contents + [a], true, m[a.name := a.value])
  {
    PushDistinct(contents, a);
    MapOfPush(contents, a);
  }

  lemma SortAdded(contents: seq<Attr>, sort: bool, m: map<Symbol, Value>)
    requires Adding(contents, sort, m)
    ensures DistinctNames(contents) && |SortAttrs(contents)| == |contents|
    ensures Adding(SortAttrs(contents), false, m)
  {
    SortMeans(contents);
    SortedDistinct(SortAttrs(contents));
  }

  /** The buffer in order, for a lookup or as the result. */
  method PutInOrder(builder: BindingsBuilder, sort: bool, ghost m: map<Symbol, Value>)
    requires builder.Valid() && Adding(builder.Contents(), sort, m)
    modifies builder.attrs
    ensures builder.Valid() && Adding(builder.Contents(), false, m)
  {
    if sort {
      SortAdded(builder.Contents(), sort, m);
      builder.Sort();
    }
  }

  /** The dynamic attributes. Every lookup finds the buffer sorted. */
  method AddDynamics(ds: seq<Dynamic>, builder: BindingsBuilder, startSorted: bool, ghost base: map<Symbol, Value>)
    returns (r: Result<seq<Attr>>)
    requires builder.Valid() && builder.numAttrs + |ds| <= builder.attrs.Length
    requires Adding(builder.Contents(), !startSorted, base)
    modifies builder`numAttrs, builder.attrs
    ensures r.Ok? ==> forall k :: 0 <= k < |ds| ==> Fine(base, ds, k)
    ensures r.Ok? ==> Sorted(r.value) && MapOf(r.value) == Defined(base, ds, |ds|)
    ensures !r.Ok? ==> exists k: nat :: FailsAt(base, ds, k) && r == FailureOf(ds[k])
  {
    var sort := !startSorted;
    for k := 0 to |ds|
      invariant builder.Valid() && builder.numAttrs <= old(builder.numAttrs) + k
      invariant Adding(builder.Contents(), sort, Defined(base, ds, k))
      invariant forall j :: 0 <= j < k ==> Fine(base, ds, j)
    {
      hide Adding, SortAttrs, MapOf;
      if ds[k].name.Throws? {
        assert FailsAt(base, ds, k);
        return Failed(ds[k].name.error);
      }
      if ds[k].name.value.Some? {
        var name := ds[k].name.value.value;
        PutInOrder(builder, sort, Defined(base, ds, k));
        var found := Look(builder, Defined(base, ds, k), name);
        if found.Some? {
          assert FailsAt(base, ds, k);
          return AlreadyDefined(name);
        }
        AddOne(builder.Contents(), Defined(base, ds, k), Attr(name, ds[k].value));
        builder.Insert(Attr(name, ds[k].value));
        sort := true;
      }
    }
    PutInOrder(builder, sort, Defined(base, ds, |ds|));
    r := Ok(builder.attrs[..builder.numAttrs]);
  }

  method Look(builder: BindingsBuilder, ghost m: map<Symbol, Value>, name: Symbol) returns (r: Option<Value>)
    requires builder.Valid() && Adding(builder.Contents(), false, m)
    ensures r == Find(m, name)
  {
    r := builder.Lookup(name);
  }

  lemma SortedDistinct(xs: seq<Attr>)
    requires Sorted(xs)
    ensures DistinctNames(xs)
  {
  }

  lemma {:induction false} DistinctMeans(xs: seq<Attr>, i: nat)
    requires DistinctNames(xs) && i < |xs|
    ensures Find(MapOf(xs), xs[i].name) == Some(xs[i].value)
  {
    if i < |xs| - 1 {
      DistinctMeans(xs[..|xs| - 1], i);
    }
  }

  /** Whether the overrides of a set expression apply: only in a recursive set that defines
      `__overrides` statically. */
  ghost predicate HasOverrides(recursive: bool, statics: seq<Attr>) {
    recursive && OVERRIDES in MapOf(statics)
  }

  ghost function BaseOf(
      recursive: bool, statics: seq<Attr>, forced: Outcome<seq<Attr>, Exception>): map<Symbol, Value>
  {
    Base(statics, if HasOverrides(recursive, statics) && forced.Done? then Some(forced.value) else None)
  }

  /** `ExprAttrs::eval`. `forced` is what forcing the attribute `__overrides` as a set gives.
      The set built is sorted and holds the static attributes, overridden and extended, and
      every dynamic attribute with a name; the frame of a recursive set holds the overridden
      values. */
  method EvalAttrs(recursive: bool, statics: seq<Attr>, forced: Outcome<seq<Attr>, Exception>, ds: seq<Dynamic>)
    returns (r: Result<seq<Attr>>, env: array<Value>)
    requires Sorted(statics) && (forced.Done? ==> Sorted(forced.value))
    ensures HasOverrides(recursive, statics) && forced.Throws? ==> r == Failed(forced.error)
    ensures !(HasOverrides(recursive, statics) && forced.Throws?) ==>
              var base := BaseOf(recursive, statics, forced);
              && (r.Ok? <==> forall k :: 0 <= k < |ds| ==> Fine(base, ds, k))
              && (r.Ok? ==> Sorted(r.value) && MapOf(r.value) == Defined(base, ds, |ds|))
              && (!r.Ok? ==> exists k: nat :: FailsAt(base, ds, k) && r == FailureOf(ds[k]))
              && env.Length == |statics|
              && forall i :: 0 <= i < |statics| ==> Find(base, statics[i].name) == Some(env[i])
  {
    var builder := new BindingsBuilder(|statics| + |ds|);
    env := new Value[|statics|];
    InsertStatics(statics, builder, env);
    SortedDistinct(statics);
    var displ := FindDispl(statics, OVERRIDES);
    if recursive && displ.Some? {
      if forced.Throws? {
        return Failed(forced.error), env;
      }
      builder.Grow(builder.attrs.Length + |forced.value|);
      ApplyOverrides(statics, forced.value, builder, env);
      assert forced.value[..|forced.value|] == forced.value;
    }
    ghost var base := BaseOf(recursive, statics, forced);
    forall i | 0 <= i < |statics|
      ensures Find(base, statics[i].name) == Some(env[i])
    {
      DistinctMeans(builder.Contents(), i);
    }
    r := AddDynamics(ds, builder, !(recursive && displ.Some?), base);
  }
}
