/** `builtins.listToAttrs`: sorting and compacting inside the array of the result. */
module ListToAttrs {
  import opened Common
  import opened Outcomes
  import opened Bindings
  import opened AttrsBuilder

  /** A list element: what looking up its `name`, and its `value`, gives. */
  datatype Elem = Elem(name: Outcome<Symbol, Exception>, value: Outcome<Value, Exception>)

  /** Every name is a symbol; symbols are numbered from 1. */
  ghost predicate Symbols(elems: seq<Elem>) {
    forall i :: 0 <= i < |elems| && elems[i].name.Done? ==> elems[i].name.value > 0
  }

  ghost predicate AllNamed(elems: seq<Elem>) {
    forall i :: 0 <= i < |elems| ==> elems[i].name.Done?
  }

  /** No earlier element has the name of this one. */
  ghost predicate IsFirst(elems: seq<Elem>, i: nat)
    requires AllNamed(elems)
  {
    i < |elems| && forall j :: 0 <= j < i ==> elems[j].name != elems[i].name
  }

  /** The names paired with their positions in the list. */
  ghost function Pairs(elems: seq<Elem>, n: nat): (s: seq<Attr>)
    requires AllNamed(elems) && n <= |elems|
    ensures |s| == n && forall i :: 0 <= i < n ==> s[i] == Attr(elems[i].name.value, i)
  {
    if n == 0 then [] else Pairs(elems, n - 1) + [Attr(elems[n - 1].name.value, n - 1)]
  }

  /** A list of such pairs in order, with nothing missing. */
  ghost predicate SortedPairs(s: seq<Attr>, elems: seq<Elem>) {
    && AllNamed(elems) && |s| == |elems| && Ordered(s)
    && (forall k :: 0 <= k < |s| ==> s[k].value < |elems| && s[k].name == elems[s[k].value].name.value)
    && (forall i: nat :: i < |elems| ==> Attr(elems[i].name.value, i) in s)
  }

  lemma {:induction false} PairsSorted(elems: seq<Elem>)
    requires AllNamed(elems)
    ensures SortedPairs(SortAttrs(Pairs(elems, |elems|)), elems)
  {
    var p := Pairs(elems, |elems|);
    var s := SortAttrs(p);
    SortSorts(p);
    hide SortAttrs, Pairs, Ordered;
    RearrangedLength(s, p);
    forall k | 0 <= k < |s|
      ensures s[k].value < |elems| && s[k].name == elems[s[k].value].name.value
    {
      Rearranged(s, p, k);
      var i :| 0 <= i < |p| && p[i] == s[k];
    }
    forall i: nat | i < |elems|
      ensures Attr(elems[i].name.value, i) in s
    {
      Rearranged(p, s, i);
    }
  }

  lemma RearrangedLength(s: seq<Attr>, p: seq<Attr>)
    requires multiset(s) == multiset(p)
    ensures |s| == |p|
  {
    assert |multiset(s)| == |s|;
  }

  lemma Rearranged(s: seq<Attr>, p: seq<Attr>, k: nat)
    requires multiset(s) == multiset(p) && k < |s|
    ensures s[k] in p
  {
    assert s[k] in multiset(s);
  }

  /** The first of a run of equal names. */
  predicate Leads(s: seq<Attr>, k: nat)
    requires k < |s|
  {
    k == 0 || s[k - 1].name != s[k].name
  }

  /** The pair that leads its name is the first occurrence of the name in the list. */
  lemma LeadsIsFirst(s: seq<Attr>, elems: seq<Elem>, k: nat)
    requires SortedPairs(s, elems) && k < |s|
    ensures Leads(s, k) <==> IsFirst(elems, s[k].value)
  {
    var i := s[k].value;
    if Leads(s, k) {
      forall j: nat | j < i
        ensures elems[j].name != elems[i].name
      {
        var a := Attr(elems[j].name.value, j);
        var m :| 0 <= m < |s| && s[m] == a;
        if m > k {
          assert Precedes(s[k], s[m]);
        } else if m < k - 1 {
          assert Precedes(s[m], s[k - 1]) && Precedes(s[k - 1], s[k]);
        }
      }
    } else {
      assert Precedes(s[k - 1], s[k]);
      assert elems[s[k - 1].value].name == elems[i].name;
    }
  }

  /** The value of an element that has one. */
  ghost function ValueOf(elems: seq<Elem>, i: nat): Value {
    if i < |elems| && elems[i].value.Done? then elems[i].value.value else 0
  }

  /** What compaction keeps of the first `k` pairs. */
  ghost function Compact(s: seq<Attr>, elems: seq<Elem>, k: nat): seq<Attr>
    requires k <= |s|
  {
    if k == 0 then []
    else if !Leads(s, k - 1) then Compact(s, elems, k - 1)
    else Compact(s, elems, k - 1) + [Attr(s[k - 1].name, ValueOf(elems, s[k - 1].value))]
  }

  /** The leading pairs read so far have values. */
  ghost predicate CompactOk(s: seq<Attr>, elems: seq<Elem>, k: nat) {
    && SortedPairs(s, elems) && k <= |s|
    && forall m :: 0 <= m < k && Leads(s, m) ==> s[m].value < |elems| && elems[s[m].value].value.Done?
  }

  lemma {:induction false} CompactSorted(s: seq<Attr>, elems: seq<Elem>, k: nat)
    requires k <= |s| && Ordered(s)
    ensures Sorted(Compact(s, elems, k)) && |Compact(s, elems, k)| <= k
    ensures k > 0 ==>
      Compact(s, elems, k) != [] && Compact(s, elems, k)[|Compact(s, elems, k)| - 1].name == s[k - 1].name
  {
    if k > 1 {
      CompactSorted(s, elems, k - 1);
      assert Precedes(s[k - 2], s[k - 1]);
    }
  }

  /** Compaction keeps the leading pairs, with the values of their elements, and nothing else. */
  lemma {:induction false} CompactHas(s: seq<Attr>, elems: seq<Elem>, k: nat, a: Attr)
    requires k <= |s|
    ensures a in Compact(s, elems, k) <==>
              exists m :: 0 <= m < k && Leads(s, m) && a == Attr(s[m].name, ValueOf(elems, s[m].value))
  {
    if k > 0 {
      CompactHas(s, elems, k - 1, a);
    }
  }

  /** The documented result: each name with the value of its first occurrence. */
  ghost predicate FirstsWin(xs: seq<Attr>, elems: seq<Elem>) {
    && AllNamed(elems) && Sorted(xs)
    && (forall n :: n in MapOf(xs) <==> exists i :: 0 <= i < |elems| && elems[i].name == Done(n))
    && (forall i: nat :: IsFirst(elems, i) ==>
          elems[i].value.Done? && Find(MapOf(xs), elems[i].name.value) == Some(elems[i].value.value))
  }

  lemma {:induction false} FirstOccurrence(elems: seq<Elem>, i: nat) returns (f: nat)
    requires AllNamed(elems) && i < |elems|
    ensures IsFirst(elems, f) && elems[f].name == elems[i].name
    decreases i
  {
    if j: nat :| j < i && elems[j].name == elems[i].name {
      f := FirstOccurrence(elems, j);
    } else {
      f := i;
    }
  }

  lemma FirstInCompact(s: seq<Attr>, elems: seq<Elem>, i: nat)
    requires CompactOk(s, elems, |s|) && IsFirst(elems, i)
    ensures elems[i].value.Done?
    ensures Find(MapOf(Compact(s, elems, |s|)), elems[i].name.value) == Some(elems[i].value.value)
  {
    var xs := Compact(s, elems, |s|);
    var k := PairOf(s, elems, i);
    LeadsIsFirst(s, elems, k);
    var a := Attr(elems[i].name.value, elems[i].value.value);
    CompactHas(s, elems, |s|, a);
    CompactSorted(s, elems, |s|);
    var j :| 0 <= j < |xs| && xs[j] == a;
    MapOfAt(xs, j);
  }

  lemma CompactIsResult(s: seq<Attr>, elems: seq<Elem>)
    requires CompactOk(s, elems, |s|)
    ensures FirstsWin(Compact(s, elems, |s|), elems)
  {
    var xs := Compact(s, elems, |s|);
    CompactSorted(s, elems, |s|);
    forall i: nat | IsFirst(elems, i)
      ensures elems[i].value.Done? && Find(MapOf(xs), elems[i].name.value) == Some(elems[i].value.value)
    {
      FirstInCompact(s, elems, i);
    }
    forall i | 0 <= i < |elems|
      ensures elems[i].name.value in MapOf(xs)
    {
      var f := FirstOccurrence(elems, i);
      FirstInCompact(s, elems, f);
    }
    forall n | n in MapOf(xs)
      ensures exists i :: 0 <= i < |elems| && elems[i].name == Done(n)
    {
      var j := MapOfOnly(xs, n);
      CompactHas(s, elems, |s|, xs[j]);
    }
  }

  lemma {:induction false} OrderedAt(s: seq<Attr>, elems: seq<Elem>, n: nat, k: nat)
    requires SortedPairs(s, elems) && n < |s| && k < |s| && s[k].name < s[n].name
    ensures k < n
  {
  }

  /** The name of the failing element is the least of those whose first occurrence has no
      value. */
  ghost predicate LeastFailure(elems: seq<Elem>, i: nat) {
    && AllNamed(elems) && IsFirst(elems, i) && elems[i].value.Throws?
    && forall j: nat :: IsFirst(elems, j) && elems[j].name.value < elems[i].name.value ==> elems[j].value.Done?
  }

  /** The pair of an element. */
  lemma PairOf(s: seq<Attr>, elems: seq<Elem>, i: nat) returns (k: nat)
    requires SortedPairs(s, elems) && i < |elems|
    ensures k < |s| && s[k] == Attr(elems[i].name.value, i)
  {
    k :| k < |s| && s[k] == Attr(elems[i].name.value, i);
  }

  lemma {:induction false} EarlierHasValue(s: seq<Attr>, elems: seq<Elem>, n: nat, i: nat)
    requires CompactOk(s, elems, n) && n < |s| && i < |elems| && IsFirst(elems, i) && elems[i].name.value < s[n].name
    ensures elems[i].value.Done?
  {
    hide SortedPairs, IsFirst;
    var k := PairOf(s, elems, i);
    LeadsIsFirst(s, elems, k);
    OrderedAt(s, elems, n, k);
  }

  lemma FailureIsLeast(s: seq<Attr>, elems: seq<Elem>, n: nat)
    requires CompactOk(s, elems, n) && n < |s| && Leads(s, n)
    requires s[n].value < |elems| && elems[s[n].value].value.Throws?
    ensures LeastFailure(elems, s[n].value)
  {
    LeadsIsFirst(s, elems, n);
    assert s[n].name == elems[s[n].value].name.value;
    forall i: nat | IsFirst(elems, i) && elems[i].name.value < s[n].name
      ensures elems[i].value.Done?
    {
      EarlierHasValue(s, elems, n, i);
    }
  }

  /** Sort the whole buffer. */
  method SortBuffer(a: array<Attr>)
    modifies a
    ensures a[..] == SortAttrs(old(a[..]))
  {
    hide SortAttrs;
    var s := SortAttrs(a[..]);
    SortSize(a[..]);
    for n := 0 to a.Length
      invariant a[..n] == s[..n]
    {
      a[n] := s[n];
    }
    assert a[..] == s;
  }

  lemma {:induction false} SortSize(xs: seq<Attr>)
    ensures |SortAttrs(xs)| == |xs|
  {
    if xs != [] {
      var ys, last := xs[..|xs| - 1], xs[|xs| - 1];
      SortSize(ys);
      InsertContent(SortAttrs(ys), last);
      var r := InsertSorted(SortAttrs(ys), last);
      assert |multiset(r)| == |r|;
    }
  }

  /** Step 1: the names with their positions, in the buffer of the result, sorted. */
  method SortPairs(elems: seq<Elem>, bindings: BindingsBuilder) returns (r: Outcome<(), Exception>)
    requires bindings.attrs.Length == |elems|
    modifies bindings.attrs
    ensures r.Done? <==> AllNamed(elems)
    ensures r.Throws? ==> exists i: nat :: i < |elems| && elems[i].name == Throws(r.error)
                                        && forall j :: 0 <= j < i ==> elems[j].name.Done?
    ensures r.Done? ==> SortedPairs(bindings.attrs[..], elems)
  {
    hide SortedPairs;
    var a := bindings.attrs;
    for n := 0 to |elems|
      invariant forall i :: 0 <= i < n ==> elems[i].name.Done? && a[i] == Attr(elems[i].name.value, i)
    {
      if elems[n].name.Throws? {
        return Throws(elems[n].name.error);
      }
      a[n] := Attr(elems[n].name.value, n);
    }
    assert AllNamed(elems);
    assert a[..] == Pairs(elems, |elems|);
    SortBuffer(a);
    PairsSorted(elems);
    r := Done(());
  }

  /** Reading pair `n` extends what compaction keeps. */
  lemma CompactNext(s: seq<Attr>, elems: seq<Elem>, n: nat)
    requires CompactOk(s, elems, n) && n < |s|
    requires Leads(s, n) ==> s[n].value < |elems| && elems[s[n].value].value.Done?
    ensures CompactOk(s, elems, n + 1)
    ensures Compact(s, elems, n + 1)
         == Compact(s, elems, n) + if Leads(s, n) then [Attr(s[n].name, ValueOf(elems, s[n].value))] else []
  {
    hide SortedPairs;
  }

  lemma PairsInRange(s: seq<Attr>, elems: seq<Elem>, n: nat)
    requires SortedPairs(s, elems) && n < |s| && Symbols(elems)
    ensures s[n].value < |elems| && s[n].name > 0
  {
  }

  lemma StartCompact(s: seq<Attr>, elems: seq<Elem>)
    requires SortedPairs(s, elems)
    ensures CompactOk(s, elems, 0) && Compact(s, elems, 0) == [] && |s| == |elems|
  {
  }

  /** The pairs still to be read are where sorting put them. */
  ghost predicate Unread(a: seq<Attr>, s: seq<Attr>, n: nat) {
    |a| == |s| && forall i :: n <= i < |s| ==> a[i] == s[i]
  }

  /** Step 2: keep the first pair of each name, with its value, at the front of the same
      array. The write index never passes the read index, so no unread pair is lost. */
  method CompactPairs(elems: seq<Elem>, bindings: BindingsBuilder) returns (r: Outcome<(), Exception>)
    requires bindings.attrs.Length == |elems| && bindings.numAttrs == 0
    requires Symbols(elems) && SortedPairs(bindings.attrs[..], elems)
    modifies bindings`numAttrs, bindings.attrs
    ensures r.Done? ==> bindings.Valid() && FirstsWin(bindings.Contents(), elems)
    ensures r.Throws? ==> exists i: nat :: LeastFailure(elems, i) && elems[i].value == Throws(r.error)
  {
    hide SortedPairs, CompactOk, Compact, FirstsWin, LeastFailure, Symbols;
    ghost var s := bindings.attrs[..];
    StartCompact(s, elems);
    var prev: Symbol := 0;
    for n := 0 to |elems|
      invariant bindings.attrs == old(bindings.attrs) && bindings.numAttrs <= n
      invariant Unread(bindings.attrs[..], s, n)
      invariant SortedPairs(s, elems) && CompactOk(s, elems, n) && bindings.Contents() == Compact(s, elems, n)
      invariant prev == if n == 0 then 0 else s[n - 1].name
    {
      var attr := bindings.attrs[n];
      PairsInRange(s, elems, n);
      ghost var before := bindings.attrs[..];
      if prev != attr.name {
        if elems[attr.value].value.Throws? {
          FailureIsLeast(s, elems, n);
          return Throws(elems[attr.value].value.error);
        }
        prev := attr.name;
        bindings.Insert(Attr(prev, elems[attr.value].value.value));
      }
      CompactNext(s, elems, n);
      assert forall i :: n < i < |s| ==> bindings.attrs[..][i] == before[i];
    }
    CompactIsResult(s, elems);
    ghost var kept := bindings.Contents();
    for n := bindings.numAttrs to |elems|
      invariant bindings.attrs == old(bindings.attrs) && bindings.Valid() && bindings.Contents() == kept
    {
      bindings.attrs[n] := Attr(0, 0);
    }
    r := Done(());
  }

  /** `prim_listToAttrs`. */
  method ListToAttrs(elems: seq<Elem>) returns (r: Outcome<seq<Attr>, Exception>)
    requires Symbols(elems)
    ensures r.Done? ==> FirstsWin(r.value, elems)
    ensures r.Done? <==> AllNamed(elems) && forall i: nat :: IsFirst(elems, i) ==> elems[i].value.Done?
    ensures r.Throws? && !AllNamed(elems) ==>
              exists i: nat ::
                i < |elems| && elems[i].name == Throws(r.error) && forall j :: 0 <= j < i ==> elems[j].name.Done?
    ensures r.Throws? && AllNamed(elems) ==>
      exists i: nat :: LeastFailure(elems, i) && elems[i].value == Throws(r.error)
  {
    hide SortedPairs;
    var bindings := new BindingsBuilder(|elems|);
    var done := SortPairs(elems, bindings);
    if done.Throws? {
      return Throws(done.error);
    }
    done := CompactPairs(elems, bindings);
    if done.Throws? {
      return Throws(done.error);
    }
    r := Done(bindings.attrs[..bindings.numAttrs]);
  }
}
