/** `genericClosure`: the transitive closure of a function from elements to lists of
    elements, deduplicated by key in an ordered map. */
module Closure {
  import opened Common
  import opened Equality
  import opened Ordering

  /** An element: its identity and, if it is a set with a `key` attribute, its key. */
  datatype Elem = Elem(id: nat, key: Option<Cell>)

  /** The `operator`: a list of elements, or an error. */
  type Operator = Elem -> Option<seq<Elem>>

  /** Neither key is less than the other: the map holds them to be the same key. */
  ghost predicate Equivalent(v: Value, w: Value) {
    Less(v, w) == No && Less(w, v) == No
  }

  ghost predicate Apart(v: Value, w: Value) {
    Less(v, w) == Yes || Less(w, v) == Yes
  }

  ghost predicate SortedKeys(keys: seq<Cell>) {
    forall i, j :: 0 <= i < j < |keys| ==> Less(keys[i].v, keys[j].v) == Yes
  }

  ghost predicate AllShared(keys: seq<Cell>, mem: nat -> Value) {
    forall i :: 0 <= i < |keys| ==> SharedData(keys[i], mem)
  }

  /* The ordered map */

  datatype Probe = Clash | Present(at: nat) | Absent(at: nat)

  /** Searching the map for a key. The path through the balanced tree depends on how the
      tree happens to be shaped, so each probe may be anywhere in the remaining range. */
  method Search(keys: seq<Cell>, k: Cell, ghost mem: nat -> Value) returns (r: Probe)
    requires SortedKeys(keys) && AllShared(keys, mem) && SharedData(k, mem)
    ensures r.Clash? ==> exists i :: 0 <= i < |keys| && Less(k.v, keys[i].v) == Cannot
    ensures r.Present? ==> r.at < |keys| && Equivalent(k.v, keys[r.at].v)
    ensures r.Absent? ==> r.at <= |keys| && SortedKeys(keys[..r.at] + [k] + keys[r.at..])
  {
    var lo, hi := 0, |keys|;
    while lo < hi
      invariant 0 <= lo <= hi <= |keys|
      invariant lo > 0 ==> Less(k.v, keys[lo - 1].v) == No
      invariant hi < |keys| ==> Less(k.v, keys[hi].v) == Yes
    {
      var mid :| lo <= mid < hi;
      var c := CompareValues(k, keys[mid]);
      OrderIsLess(k, keys[mid], mem);
      if c == Cannot {
        return Clash;
      } else if c == Yes {
        hi := mid;
      } else {
        lo := mid + 1;
      }
    }
    if lo > 0 {
      LessAsymmetric(k.v, keys[lo - 1].v);
      var c := CompareValues(keys[lo - 1], k);
      OrderIsLess(keys[lo - 1], k, mem);
      if c != Yes {
        return Present(lo - 1);
      }
    }
    InsertedSorted(keys, k, lo, mem);
    r := Absent(lo);
  }

  lemma InsertedSorted(keys: seq<Cell>, k: Cell, at: nat, mem: nat -> Value)
    requires SortedKeys(keys) && AllShared(keys, mem) && SharedData(k, mem) && at <= |keys|
    requires at > 0 ==> Less(keys[at - 1].v, k.v) == Yes
    requires at < |keys| ==> Less(k.v, keys[at].v) == Yes
    ensures SortedKeys(keys[..at] + [k] + keys[at..])
  {
    forall i | 0 <= i < at
      ensures Less(keys[i].v, k.v) == Yes
    {
      if i < at - 1 {
        LessTransitive(keys[i].v, keys[at - 1].v, k.v);
      }
    }
    forall i | at <= i < |keys|
      ensures Less(k.v, keys[i].v) == Yes
    {
      if i > at {
        LessTransitive(k.v, keys[at].v, keys[i].v);
      }
    }
    var all := keys[..at] + [k] + keys[at..];
    forall i, j | 0 <= i < j < |all|
      ensures Less(all[i].v, all[j].v) == Yes
    {
      assert all[i] == if i < at then keys[i] else if i == at then k else keys[i - 1];
      assert all[j] == if j < at then keys[j] else if j == at then k else keys[j - 1];
    }
  }

  /* The closure */

  /** The same key, or one the map cannot tell from it. */
  ghost predicate SameKey(v: Value, w: Value) {
    v == w || Equivalent(v, w)
  }

  /** Some element of the result has the same key. */
  ghost predicate Covered(e: Elem, res: seq<Elem>) {
    e.key.Some? && exists i :: 0 <= i < |res| && res[i].key.Some? && SameKey(e.key.value.v, res[i].key.value.v)
  }

  ghost predicate DistinctKeys(res: seq<Elem>) {
    && (forall i :: 0 <= i < |res| ==> res[i].key.Some?)
    && (forall i, j :: 0 <= i < j < |res| ==> Apart(res[i].key.value.v, res[j].key.value.v))
  }

  /** Each element comes from the start set or from an earlier element. */
  ghost predicate Derived(res: seq<Elem>, start: seq<Elem>, op: Operator) {
    forall j :: 0 <= j < |res| ==>
      res[j] in start || exists i :: 0 <= i < j && op(res[i]).Some? && res[j] in op(res[i]).value
  }

  /** The start set and everything the operator makes of the result is in the result, up to
      keys; `pending` is what has not been looked at yet. */
  ghost predicate ClosedUpTo(res: seq<Elem>, start: seq<Elem>, op: Operator, pending: seq<Elem>) {
    && (forall e :: e in start ==> e in pending || Covered(e, res))
    && (forall i :: 0 <= i < |res| ==> op(res[i]).Some?)
    && (forall i, e :: 0 <= i < |res| && e in op(res[i]).value ==> e in pending || Covered(e, res))
  }

  /** The map cannot tell the key from that of an element met before. */
  ghost predicate Known(e: Elem, met: seq<Elem>) {
    exists i :: 0 <= i < |met| && met[i].key.Some? && e.key.Some? && Equivalent(e.key.value.v, met[i].key.value.v)
  }

  /** The first elements of a list by key, in the order of the list. */
  ghost function Firsts(s: seq<Elem>): seq<Elem> {
    if s == [] then []
    else
      var before, e := Firsts(s[..|s| - 1]), s[|s| - 1];
      if Known(e, before) then before else before + [e]
  }

  /** What the operator makes of each element in turn. */
  ghost function Outputs(op: Operator, res: seq<Elem>): seq<Elem> {
    if res == [] then []
    else
      var e := res[|res| - 1];
      Outputs(op, res[..|res| - 1]) + if op(e).Some? then op(e).value else []
  }

  /** The result is the first elements of the start set followed by what the operator makes of
      each element of the result, one after the other. */
  ghost predicate InOrder(res: seq<Elem>, start: seq<Elem>, op: Operator) {
    res == Firsts(start + Outputs(op, res))
  }

  lemma FirstsSnoc(s: seq<Elem>, e: Elem)
    ensures Firsts(s + [e]) == if Known(e, Firsts(s)) then Firsts(s) else Firsts(s) + [e]
  {
    assert (s + [e])[..|s|] == s;
  }

  lemma OutputsSnoc(op: Operator, res: seq<Elem>, e: Elem)
    ensures Outputs(op, res + [e]) == Outputs(op, res) + if op(e).Some? then op(e).value else []
  {
    assert (res + [e])[..|res|] == res;
  }

  /** The key equals one of the given keys, wherever in memory either of them is. */
  ghost predicate EqualsOneOf(v: Value, keys: set<Value>) {
    exists k :: k in keys && Plain(k) && Same(v, k)
  }

  /** Elements that can be reached, with finitely many keys up to equality. */
  ghost predicate Bounds(reach: iset<Elem>, keys: set<Value>, start: seq<Elem>, op: Operator, mem: nat -> Value) {
    && (forall e :: e in start ==> e in reach)
    && (forall e, x :: e in reach && op(e).Some? && x in op(e).value ==> x in reach)
    && (forall e :: e in reach && e.key.Some? ==> SharedData(e.key.value, mem) && EqualsOneOf(e.key.value.v, keys))
  }

  /** The element was met: it is from the start set or the operator made it of an element of
      the result. */
  ghost predicate Origin(e: Elem, res: seq<Elem>, start: seq<Elem>, op: Operator) {
    e in start || exists i :: 0 <= i < |res| && op(res[i]).Some? && e in op(res[i]).value
  }

  /** What makes `genericClosure` throw, having got as far as `res`: the element it meets has
      no key, or a key that does not compare with one of the result, or it is new and the
      operator throws on it. */
  ghost predicate FailsAt(e: Elem, res: seq<Elem>, start: seq<Elem>, op: Operator) {
    && DistinctKeys(res) && Derived(res, start, op) && Origin(e, res, start, op)
    && (|| e.key.None?
        || (exists i :: 0 <= i < |res| && Less(e.key.value.v, res[i].key.value.v) == Cannot)
        || (op(e).None? && forall i :: 0 <= i < |res| ==> Apart(res[i].key.value.v, e.key.value.v)))
  }

  /** The keys of the map are the keys of the result. */
  ghost predicate MapMatches(map_: seq<Cell>, res: seq<Elem>) {
    && |map_| == |res|
    && (forall i :: 0 <= i < |res| ==> res[i].key.Some? && res[i].key.value in map_)
    && (forall i :: 0 <= i < |map_| ==> exists j :: 0 <= j < |res| && res[j].key == Some(map_[i]))
  }

  /** The invariant of the loop. */
  ghost predicate Progress(
      work: seq<Elem>, res: seq<Elem>, map_: seq<Cell>, start: seq<Elem>, op: Operator, reach: iset<Elem>,
      mem: nat -> Value)
  {
    && (forall e :: e in work ==> e in reach)
    && (forall i :: 0 <= i < |res| ==> res[i] in reach)
    && (forall e :: e in work ==> Origin(e, res, start, op))
    && SortedKeys(map_) && AllShared(map_, mem) && MapMatches(map_, res)
    && DistinctKeys(res) && Derived(res, start, op) && ClosedUpTo(res, start, op, work)
  }

  /** What has been handled and what has not are together the list that the result is made
      from. */
  ghost predicate Sequenced(done: seq<Elem>, work: seq<Elem>, res: seq<Elem>, start: seq<Elem>, op: Operator) {
    done + work == start + Outputs(op, res) && res == Firsts(done)
  }

  lemma SequenceSkips(done: seq<Elem>, work: seq<Elem>, res: seq<Elem>, start: seq<Elem>, op: Operator)
    requires Sequenced(done, work, res, start, op) && work != [] && Known(work[0], res)
    ensures Sequenced(done + [work[0]], work[1..], res, start, op)
  {
    hide Known, Firsts, Outputs;
    FirstsSnoc(done, work[0]);
    assert work == [work[0]] + work[1..];
    assert done + [work[0]] + work[1..] == done + ([work[0]] + work[1..]);
  }

  lemma ApartNotKnown(e: Elem, res: seq<Elem>)
    requires e.key.Some?
    requires forall i :: 0 <= i < |res| ==> res[i].key.Some? && Apart(res[i].key.value.v, e.key.value.v)
    ensures !Known(e, res)
  {
    hide Less;
  }

  lemma SequenceAdds(done: seq<Elem>, work: seq<Elem>, res: seq<Elem>, start: seq<Elem>, op: Operator)
    requires Sequenced(done, work, res, start, op) && work != [] && op(work[0]).Some? && !Known(work[0], res)
    ensures Sequenced(done + [work[0]], work[1..] + op(work[0]).value, res + [work[0]], start, op)
  {
    hide Known, Firsts, Outputs;
    var e, more := work[0], op(work[0]).value;
    FirstsSnoc(done, e);
    OutputsSnoc(op, res, e);
    Regroup(done, work, more);
    assert start + (Outputs(op, res) + more) == start + Outputs(op, res) + more;
  }

  lemma Regroup(done: seq<Elem>, work: seq<Elem>, more: seq<Elem>)
    requires work != []
    ensures done + [work[0]] + (work[1..] + more) == done + work + more
  {
    assert work == [work[0]] + work[1..];
  }

  method GenericClosure(
      start: seq<Elem>, op: Operator, ghost reach: iset<Elem>, ghost keys: set<Value>, ghost mem: nat -> Value)
    returns (r: Option<seq<Elem>>)
    requires Bounds(reach, keys, start, op, mem)
    ensures r.None? ==> exists e, met :: FailsAt(e, met, start, op)
    ensures r.Some? ==> DistinctKeys(r.value) && Derived(r.value, start, op) && ClosedUpTo(r.value, start, op, [])
    ensures r.Some? ==> InOrder(r.value, start, op) && NoneTwice(r.value)
  {
    hide SharedData, EqualsOneOf;
    var workSet := start;
    var res: seq<Elem> := [];
    var keyToElem: seq<Cell> := [];
    ghost var done: seq<Elem> := [];
    while workSet != []
      invariant Sequenced(done, workSet, res, start, op)
      invariant Progress(workSet, res, keyToElem, start, op, reach, mem)
      invariant |res| <= |keys|
      decreases |keys| - |res|, |workSet|
    {
      var e := workSet[0];
      assert e in workSet;
      if e.key.None? {
        assert FailsAt(e, res, start, op);
        return None;
      }
      var k := e.key.value;
      var probe := Search(keyToElem, k, mem);
      match probe
      case Clash =>
        ClashIsFault(keyToElem, res, k, e, start, op);
        return None;
      case Present(at) =>
        SkipStep(workSet, res, keyToElem, start, op, reach, mem, at);
        SequenceSkips(done, workSet, res, start, op);
        done, workSet := done + [e], workSet[1..];
      case Absent(at) =>
        var out := op(e);
        if out.None? {
          NewKeyApart(keyToElem, k, at, res);
          assert FailsAt(e, res, start, op);
          return None;
        }
        NewKeyApart(keyToElem, k, at, res);
        AddStep(workSet, res, keyToElem, start, op, reach, keys, mem, at);
        ApartNotKnown(e, res);
        SequenceAdds(done, workSet, res, start, op);
        keyToElem := keyToElem[..at] + [k] + keyToElem[at..];
        res := res + [e];
        done, workSet := done + [e], workSet[1..] + out.value;
    }
    assert done + [] == done;
    ReachableOnce(res, reach, keys, start, op, mem);
    r := Some(res);
  }

  /** An element whose key is in the map already is dropped. */
  lemma SkipStep(
      work: seq<Elem>, res: seq<Elem>, map_: seq<Cell>, start: seq<Elem>, op: Operator, reach: iset<Elem>,
      mem: nat -> Value, at: nat)
    requires Progress(work, res, map_, start, op, reach, mem)
    requires work != [] && work[0].key.Some? && at < |map_| && Equivalent(work[0].key.value.v, map_[at].v)
    ensures Progress(work[1..], res, map_, start, op, reach, mem)
    ensures Known(work[0], res)
  {
    var j :| 0 <= j < |res| && res[j].key == Some(map_[at]);
    assert Covered(work[0], res);
    assert forall e :: e in work <==> e == work[0] || e in work[1..];
  }

  /** An element with a new key joins the result, and what the operator makes of it the
      work list. */
  lemma AddStep(
      work: seq<Elem>, res: seq<Elem>, map_: seq<Cell>, start: seq<Elem>, op: Operator, reach: iset<Elem>,
      keys: set<Value>, mem: nat -> Value, at: nat)
    requires Bounds(reach, keys, start, op, mem) && Progress(work, res, map_, start, op, reach, mem)
    requires work != [] && work[0].key.Some? && op(work[0]).Some? && at <= |map_|
    requires SortedKeys(map_[..at] + [work[0].key.value] + map_[at..])
    ensures Progress(work[1..] + op(work[0]).value, res + [work[0]], map_[..at] + [work[0].key.value] + map_[at..],
      start, op, reach, mem)
    ensures |res| + 1 <= |keys|
  {
    hide SharedData, Bounds, DistinctKeys, Derived, ClosedUpTo, MapMatches, Origin;
    var e := work[0];
    var k := e.key.value;
    var all := map_[..at] + [k] + map_[at..];
    assert e in work && e in reach;
    NewKeyApart(map_, k, at, res);
    assert all[..at] + all[at + 1..] == map_;
    MapGrows(all, k, at, res, e);
    ReachShared(reach, keys, start, op, mem, e);
    SharedGrows(map_, k, at, mem);
    DistinctGrows(res, e);
    OriginsGrow(work, res, start, op);
    ReachGrows(work, res, start, op, reach, keys, mem);
    CoverageGrows(res, e, start, op, work);
    KeysBounded(res + [e], reach, keys, start, op, mem);
  }

  lemma ReachShared(reach: iset<Elem>, keys: set<Value>, start: seq<Elem>, op: Operator, mem: nat -> Value, e: Elem)
    requires Bounds(reach, keys, start, op, mem) && e in reach && e.key.Some?
    ensures SharedData(e.key.value, mem)
  {
  }

  lemma SharedGrows(map_: seq<Cell>, k: Cell, at: nat, mem: nat -> Value)
    requires AllShared(map_, mem) && SharedData(k, mem) && at <= |map_|
    ensures AllShared(map_[..at] + [k] + map_[at..], mem)
  {
    var all := map_[..at] + [k] + map_[at..];
    forall i | 0 <= i < |all|
      ensures SharedData(all[i], mem)
    {
      assert all[i] == if i < at then map_[i] else if i == at then k else map_[i - 1];
    }
  }

  lemma DistinctGrows(res: seq<Elem>, e: Elem)
    requires DistinctKeys(res) && e.key.Some?
    requires forall i :: 0 <= i < |res| ==> Apart(res[i].key.value.v, e.key.value.v)
    ensures DistinctKeys(res + [e])
  {
  }

  lemma OriginsGrow(work: seq<Elem>, res: seq<Elem>, start: seq<Elem>, op: Operator)
    requires work != [] && op(work[0]).Some? && Derived(res, start, op)
    requires forall e :: e in work ==> Origin(e, res, start, op)
    ensures forall e :: e in work[1..] + op(work[0]).value ==> Origin(e, res + [work[0]], start, op)
    ensures Derived(res + [work[0]], start, op)
  {
    var res' := res + [work[0]];
    assert forall i :: 0 <= i < |res| ==> res'[i] == res[i];
    forall e | e in work[1..] + op(work[0]).value
      ensures Origin(e, res', start, op)
    {
      if e in work[1..] {
        assert Origin(e, res, start, op);
        if e !in start {
          var i :| 0 <= i < |res| && op(res[i]).Some? && e in op(res[i]).value;
          assert res'[i] == res[i];
        }
      } else {
        assert res'[|res|] == work[0];
      }
    }
    forall j | 0 <= j < |res'|
      ensures res'[j] in start || exists i :: 0 <= i < j && op(res'[i]).Some? && res'[j] in op(res'[i]).value
    {
      if j < |res| {
        if res[j] !in start {
          var i :| 0 <= i < j && op(res[i]).Some? && res[j] in op(res[i]).value;
          assert res'[i] == res[i];
        }
      } else {
        assert Origin(work[0], res, start, op);
        if work[0] !in start {
          var i :| 0 <= i < |res| && op(res[i]).Some? && work[0] in op(res[i]).value;
          assert res'[i] == res[i];
        }
      }
    }
  }

  lemma ReachGrows(
      work: seq<Elem>, res: seq<Elem>, start: seq<Elem>, op: Operator, reach: iset<Elem>, keys: set<Value>,
      mem: nat -> Value)
    requires Bounds(reach, keys, start, op, mem) && work != [] && op(work[0]).Some?
    requires forall e :: e in work ==> e in reach
    requires forall i :: 0 <= i < |res| ==> res[i] in reach
    ensures forall e :: e in work[1..] + op(work[0]).value ==> e in reach
    ensures forall i :: 0 <= i < |res + [work[0]]| ==> (res + [work[0]])[i] in reach
  {
    assert work[0] in work;
    forall e | e in work[1..] + op(work[0]).value
      ensures e in reach
    {
      if e in work[1..] {
        assert e in work;
      }
    }
  }

  lemma ClashIsFault(map_: seq<Cell>, res: seq<Elem>, k: Cell, e: Elem, start: seq<Elem>, op: Operator)
    requires MapMatches(map_, res) && e.key == Some(k)
    requires DistinctKeys(res) && Derived(res, start, op) && Origin(e, res, start, op)
    requires exists i :: 0 <= i < |map_| && Less(k.v, map_[i].v) == Cannot
    ensures FailsAt(e, res, start, op)
  {
    var i :| 0 <= i < |map_| && Less(k.v, map_[i].v) == Cannot;
    var j :| 0 <= j < |res| && res[j].key == Some(map_[i]);
  }

  /** A key that fits between the sorted keys is apart from every key of the result. */
  lemma NewKeyApart(map_: seq<Cell>, k: Cell, at: nat, res: seq<Elem>)
    requires MapMatches(map_, res) && at <= |map_|
    requires SortedKeys(map_[..at] + [k] + map_[at..])
    ensures forall i :: 0 <= i < |res| ==> Apart(res[i].key.value.v, k.v)
  {
    var all := map_[..at] + [k] + map_[at..];
    forall i | 0 <= i < |res|
      ensures Apart(res[i].key.value.v, k.v)
    {
      var j :| 0 <= j < |map_| && map_[j] == res[i].key.value;
      assert all[at] == k;
      if j < at {
        assert all[j] == map_[j];
      } else {
        assert all[j + 1] == map_[j];
      }
    }
  }

  lemma MapGrows(all: seq<Cell>, k: Cell, at: nat, res: seq<Elem>, e: Elem)
    requires at < |all| && all[at] == k && e.key == Some(k)
    requires MapMatches(all[..at] + all[at + 1..], res)
    ensures MapMatches(all, res + [e])
  {
    var map_ := all[..at] + all[at + 1..];
    var res' := res + [e];
    forall i | 0 <= i < |res'|
      ensures res'[i].key.Some? && res'[i].key.value in all
    {
      if i < |res| {
        var j :| 0 <= j < |map_| && map_[j] == res[i].key.value;
        assert map_[j] == if j < at then all[j] else all[j + 1];
      }
    }
    forall i | 0 <= i < |all|
      ensures exists j :: 0 <= j < |res'| && res'[j].key == Some(all[i])
    {
      if i == at {
        assert res'[|res|].key == Some(all[i]);
      } else {
        var m := if i < at then i else i - 1;
        assert map_[m] == all[i];
        var j :| 0 <= j < |res| && res[j].key == Some(map_[m]);
        assert res'[j] == res[j];
      }
    }
  }

  /** For each of the first `n` results, the given key that its key equals. */
  lemma {:induction false} Representatives(res: seq<Elem>, keys: set<Value>, n: nat) returns (ks: seq<Value>)
    requires n <= |res|
    requires forall i :: 0 <= i < n ==> res[i].key.Some? && EqualsOneOf(res[i].key.value.v, keys)
    ensures |ks| == n
    ensures forall i :: 0 <= i < n ==> ks[i] in keys && Plain(ks[i]) && Same(res[i].key.value.v, ks[i])
  {
    hide EqualsOneOf, Plain, Same;
    if n == 0 {
      ks := [];
    } else {
      ks := Representatives(res, keys, n - 1);
      var k := Representative(res[n - 1].key.value.v, keys);
      ks := ks + [k];
    }
  }

  lemma Representative(v: Value, keys: set<Value>) returns (k: Value)
    requires EqualsOneOf(v, keys)
    ensures k in keys && Plain(k) && Same(v, k)
  {
    hide Plain, Same;
    k :| k in keys && Plain(k) && Same(v, k);
  }

  /** Keys that are apart do not equal the same key. */
  lemma ApartNotSame(v: Value, w: Value, k: Value)
    requires Plain(v) && Plain(w) && Plain(k) && Same(v, k) && Same(w, k)
    ensures !Apart(v, w)
  {
    SameSymmetric(w, k);
    SameTransitive(v, k, w);
    SameSymmetric(v, w);
    SameNotLess(v, w);
    SameNotLess(w, v);
  }

  /** Keys that are pairwise apart equal different keys of the finite set, so the result is no
      longer than it. */
  lemma KeysBounded(
      res: seq<Elem>, reach: iset<Elem>, keys: set<Value>, start: seq<Elem>, op: Operator, mem: nat -> Value)
    requires Bounds(reach, keys, start, op, mem) && DistinctKeys(res)
    requires forall i :: 0 <= i < |res| ==> res[i] in reach
    ensures |res| <= |keys|
  {
    var ks := Representatives(res, keys, |res|);
    forall i, j | 0 <= i < j < |ks|
      ensures ks[i] != ks[j]
    {
      if ks[i] == ks[j] {
        ApartNotSame(res[i].key.value.v, res[j].key.value.v, ks[i]);
      }
    }
    Pigeonhole(ks, keys);
  }

  lemma {:induction false} Pigeonhole(vs: seq<Value>, keys: set<Value>)
    requires forall i :: 0 <= i < |vs| ==> vs[i] in keys
    requires forall i, j :: 0 <= i < j < |vs| ==> vs[i] != vs[j]
    ensures |vs| <= |keys|
  {
    if vs != [] {
      var n := |vs| - 1;
      Pigeonhole(vs[..n], keys - {vs[n]});
    }
  }

  /** Adding an element, with what the operator makes of it left pending. */
  lemma CoverageGrows(res: seq<Elem>, e: Elem, start: seq<Elem>, op: Operator, work: seq<Elem>)
    requires ClosedUpTo(res, start, op, work) && work != [] && work[0] == e
    requires op(e).Some? && e.key.Some?
    ensures ClosedUpTo(res + [e], start, op, work[1..] + op(e).value)
  {
    var res', after := res + [e], work[1..] + op(e).value;
    forall x | x in work || Covered(x, res)
      ensures x in after || Covered(x, res')
    {
      if Covered(x, res) {
        CoveredGrows(x, res, e);
      } else if x == e {
        assert res'[|res|] == e && SameKey(e.key.value.v, e.key.value.v);
      } else {
        assert x in work[1..];
      }
    }
    forall i, x | 0 <= i < |res'| && x in op(res'[i]).value
      ensures x in after || Covered(x, res')
    {
      if i < |res| {
        assert res'[i] == res[i];
        assert x in work || Covered(x, res);
      }
    }
  }

  lemma CoveredGrows(x: Elem, res: seq<Elem>, e: Elem)
    requires Covered(x, res)
    ensures Covered(x, res + [e])
  {
    var i :| 0 <= i < |res| && res[i].key.Some? && SameKey(x.key.value.v, res[i].key.value.v);
    assert (res + [e])[i] == res[i];
  }

  ghost predicate NoneTwice(res: seq<Elem>) {
    forall i, j :: 0 <= i < j < |res| ==> res[i] != res[j]
  }

  lemma ReachableOnce(
      res: seq<Elem>, reach: iset<Elem>, keys: set<Value>, start: seq<Elem>, op: Operator, mem: nat -> Value)
    requires Bounds(reach, keys, start, op, mem) && DistinctKeys(res)
    requires forall i :: 0 <= i < |res| ==> res[i] in reach
    ensures NoneTwice(res)
  {
    forall i, j | 0 <= i < j < |res|
      ensures res[i] != res[j]
    {
      LessIrreflexive(res[i].key.value.v);
    }
  }

  /* The order determines the result */

  lemma {:induction false} FirstsPrefix(s: seq<Elem>, t: seq<Elem>)
    ensures Firsts(s) <= Firsts(s + t)
  {
    if t == [] {
      assert s + t == s;
    } else {
      var n := |t| - 1;
      FirstsPrefix(s, t[..n]);
      FirstsSnoc(s + t[..n], t[n]);
      assert s + t[..n] + [t[n]] == s + t;
    }
  }

  /** What is not among the first elements has the key of one. */
  lemma {:induction false} FirstsCover(s: seq<Elem>, e: Elem)
    requires e in s
    ensures e in Firsts(s) || Known(e, Firsts(s))
  {
    var n := |s| - 1;
    assert s == s[..n] + [s[n]];
    var before := Firsts(s[..n]);
    if e in s[..n] {
      FirstsCover(s[..n], e);
      if Known(e, before) {
        var i :| 0 <= i < |before| && before[i].key.Some? && Equivalent(e.key.value.v, before[i].key.value.v);
        assert Firsts(s)[i] == before[i];
      }
    }
  }

  lemma {:induction false} FirstsNotKnown(s: seq<Elem>, k: nat)
    requires k < |Firsts(s)|
    ensures !Known(Firsts(s)[k], Firsts(s)[..k])
  {
    var n := |s| - 1;
    var before := Firsts(s[..n]);
    if k < |before| {
      FirstsNotKnown(s[..n], k);
      assert Firsts(s)[..k] == before[..k];
    } else {
      assert Firsts(s)[..k] == before;
    }
  }

  lemma {:induction false} OutputsSplit(op: Operator, res: seq<Elem>, k: nat) returns (rest: seq<Elem>)
    requires k <= |res|
    ensures Outputs(op, res) == Outputs(op, res[..k]) + rest
  {
    if k == |res| {
      assert res[..k] == res;
      rest := [];
    } else {
      var n := |res| - 1;
      rest := OutputsSplit(op, res[..n], k);
      assert res[..n][..k] == res[..k];
      var more := if op(res[n]).Some? then op(res[n]).value else [];
      assert Outputs(op, res[..k]) + rest + more == Outputs(op, res[..k]) + (rest + more);
      rest := rest + more;
    }
  }

  lemma {:induction false} OutputIn(op: Operator, res: seq<Elem>, i: nat, e: Elem)
    requires i < |res| && op(res[i]).Some? && e in op(res[i]).value
    ensures e in Outputs(op, res)
  {
    if i < |res| - 1 {
      OutputIn(op, res[..|res| - 1], i, e);
    }
  }

  /** Element `k` is found in what precedes it. */
  lemma PrefixReaches(start: seq<Elem>, op: Operator, r: seq<Elem>, k: nat)
    requires InOrder(r, start, op) && Derived(r, start, op) && NoneTwice(r) && k < |r|
    ensures var found := Firsts(start + Outputs(op, r[..k]));
      found <= r && k < |found|
  {
    var prefix := start + Outputs(op, r[..k]);
    var found := Firsts(prefix);
    var rest := OutputsSplit(op, r, k);
    FirstsPrefix(prefix, rest);
    assert prefix + rest == start + Outputs(op, r);
    FirstsNotKnown(start + Outputs(op, r), k);
    if r[k] !in start {
      var i :| 0 <= i < k && op(r[i]).Some? && r[k] in op(r[i]).value;
      assert r[..k][i] == r[i];
      OutputIn(op, r[..k], i, r[k]);
    }
    FirstsCover(prefix, r[k]);
    if |found| <= k {
      KnownEarlier(r, found, k);
    }
  }

  lemma KnownEarlier(r: seq<Elem>, found: seq<Elem>, k: nat)
    requires found <= r && |found| <= k < |r| && NoneTwice(r)
    requires r[k] in found || Known(r[k], found)
    ensures Known(r[k], r[..k])
  {
    assert r[k] !in found;
    var i :| 0 <= i < |found| && found[i].key.Some? && Equivalent(r[k].key.value.v, found[i].key.value.v);
    assert r[..k][i] == found[i];
  }

  lemma StartsWith(start: seq<Elem>, op: Operator, r: seq<Elem>, k: nat)
    requires InOrder(r, start, op) && k <= |r|
    ensures Firsts(start + Outputs(op, r[..k])) <= r
  {
    var prefix := start + Outputs(op, r[..k]);
    var rest := OutputsSplit(op, r, k);
    FirstsPrefix(prefix, rest);
    assert prefix + rest == start + Outputs(op, r);
  }

  lemma {:induction false} SamePrefix(start: seq<Elem>, op: Operator, r: seq<Elem>, r': seq<Elem>, k: nat)
    requires InOrder(r, start, op) && Derived(r, start, op) && NoneTwice(r) && k <= |r|
    requires InOrder(r', start, op)
    ensures k <= |r'| && r'[..k] == r[..k]
  {
    hide *;
    if k > 0 {
      SamePrefix(start, op, r, r', k - 1);
      PrefixReaches(start, op, r, k - 1);
      StartsWith(start, op, r', k - 1);
      OneLonger(Firsts(start + Outputs(op, r[..k - 1])), r, r', k);
    }
  }

  lemma OneLonger(found: seq<Elem>, r: seq<Elem>, r': seq<Elem>, k: nat)
    requires found <= r && found <= r' && k <= |found|
    ensures k <= |r| && k <= |r'| && r'[..k] == r[..k]
  {
    assert found[..k] == r[..k] && found[..k] == r'[..k];
  }

  /** There is only one list that is derived and in order: the result, element by element. */
  lemma ClosureDetermined(start: seq<Elem>, op: Operator, r: seq<Elem>, r': seq<Elem>)
    requires InOrder(r, start, op) && Derived(r, start, op) && NoneTwice(r)
    requires InOrder(r', start, op) && Derived(r', start, op) && NoneTwice(r')
    ensures r == r'
  {
    SamePrefix(start, op, r, r', |r|);
    SamePrefix(start, op, r', r, |r'|);
  }

  /** When the reachable elements all have keys of one shape and the operator never throws,
      the closure is computed, no two of its keys are equal, and every element reached in
      one step from it or from the start set has a key equal to one of its keys. */
  method ClosureOfOneShape(
      start: seq<Elem>, op: Operator, shape: Shape, ghost reach: iset<Elem>, ghost keys: set<Value>,
      ghost mem: nat -> Value)
    returns (res: seq<Elem>)
    requires Bounds(reach, keys, start, op, mem)
    requires forall e :: e in reach ==> e.key.Some? && HasShape(e.key.value.v, shape) && op(e).Some?
    ensures Derived(res, start, op)
    ensures forall i :: 0 <= i < |res| ==> res[i].key.Some? && op(res[i]).Some?
    ensures forall i, j :: 0 <= i < j < |res| ==> !Same(res[i].key.value.v, res[j].key.value.v)
    ensures forall e :: e in start ==> HasEqualKey(e, res)
    ensures forall i, e :: 0 <= i < |res| && e in op(res[i]).value ==> HasEqualKey(e, res)
    ensures InOrder(res, start, op)
  {
    OneShapeNeverFails(start, op, shape, reach, keys, mem);
    var r := GenericClosure(start, op, reach, keys, mem);
    res := r.value;
    DerivedReachable(res, start, op, reach, keys, mem, |res|);
    forall i, j | 0 <= i < j < |res|
      ensures !Same(res[i].key.value.v, res[j].key.value.v)
    {
      KeysOfOneShape(res[i].key.value.v, res[j].key.value.v, shape);
    }
    forall e | e in reach && Covered(e, res)
      ensures HasEqualKey(e, res)
    {
      var i :| 0 <= i < |res| && res[i].key.Some? && SameKey(e.key.value.v, res[i].key.value.v);
      KeysOfOneShape(e.key.value.v, res[i].key.value.v, shape);
    }
  }

  ghost predicate HasEqualKey(e: Elem, res: seq<Elem>) {
    e.key.Some? && exists i :: 0 <= i < |res| && res[i].key.Some? && Same(e.key.value.v, res[i].key.value.v)
  }

  lemma KeysOfOneShape(v: Value, w: Value, shape: Shape)
    requires HasShape(v, shape) && HasShape(w, shape)
    ensures Apart(v, w) ==> !Same(v, w)
    ensures SameKey(v, w) ==> Same(v, w)
  {
    ShapeOrder(v, w, w, shape);
    ShapeComparable(v, w, shape);
    if v == w {
      SameReflexive(v);
    }
  }

  lemma OneShapeNeverFails(
      start: seq<Elem>, op: Operator, shape: Shape, reach: iset<Elem>, keys: set<Value>, mem: nat -> Value)
    requires Bounds(reach, keys, start, op, mem)
    requires forall e :: e in reach ==> e.key.Some? && HasShape(e.key.value.v, shape) && op(e).Some?
    ensures forall e, res :: !FailsAt(e, res, start, op)
  {
    forall e, res: seq<Elem> | DistinctKeys(res) && Derived(res, start, op) && Origin(e, res, start, op)
      ensures !FailsAt(e, res, start, op)
    {
      DerivedReachable(res, start, op, reach, keys, mem, |res|);
      forall i | 0 <= i < |res|
        ensures Less(e.key.value.v, res[i].key.value.v) != Cannot
      {
        ShapeComparable(e.key.value.v, res[i].key.value.v, shape);
      }
    }
  }

  /** Whatever is derived from the start set is reachable. */
  lemma {:induction false} DerivedReachable(
      res: seq<Elem>, start: seq<Elem>, op: Operator, reach: iset<Elem>, keys: set<Value>, mem: nat -> Value, n: nat)
    requires Bounds(reach, keys, start, op, mem) && Derived(res, start, op) && n <= |res|
    ensures forall j :: 0 <= j < n ==> res[j] in reach
  {
    if n > 0 {
      DerivedReachable(res, start, op, reach, keys, mem, n - 1);
    }
  }
}
