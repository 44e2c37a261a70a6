/** Attribute sets as sorted arrays in layers, and the update operator `//`. */
module Bindings {
  import opened Common
  import opened Outcomes

  type Value = nat

  datatype Attr = Attr(name: Symbol, value: Value)

  predicate Sorted(xs: seq<Attr>) {
    forall i, j :: 0 <= i < j < |xs| ==> xs[i].name < xs[j].name
  }

  function Find(m: map<Symbol, Value>, name: Symbol): Option<Value> {
    if name in m then Some(m[name]) else None
  }

  /* What a list of attributes means */

  ghost function MapOf(xs: seq<Attr>): map<Symbol, Value> {
    if xs == [] then map[]
    else MapOf(xs[..|xs| - 1])[xs[|xs| - 1].name := xs[|xs| - 1].value]
  }

  lemma MapOfPush(xs: seq<Attr>, a: Attr)
    ensures MapOf(xs + [a]) == MapOf(xs)[a.name := a.value]
  {
    assert (xs + [a])[..|xs|] == xs;
  }

  lemma MapOfNext(xs: seq<Attr>, i: nat)
    requires i < |xs|
    ensures MapOf(xs[..i + 1]) == MapOf(xs[..i])[xs[i].name := xs[i].value]
  {
    assert xs[..i + 1] == xs[..i] + [xs[i]];
    MapOfPush(xs[..i], xs[i]);
  }

  lemma {:induction false} MapOfAt(xs: seq<Attr>, i: nat)
    requires Sorted(xs) && i < |xs|
    ensures Find(MapOf(xs), xs[i].name) == Some(xs[i].value)
  {
    if i < |xs| - 1 {
      MapOfAt(xs[..|xs| - 1], i);
    }
  }

  lemma {:induction false} MapOfOnly(xs: seq<Attr>, name: Symbol) returns (i: nat)
    requires name in MapOf(xs)
    ensures i < |xs| && xs[i].name == name
  {
    if xs[|xs| - 1].name == name {
      i := |xs| - 1;
    } else {
      i := MapOfOnly(xs[..|xs| - 1], name);
    }
  }

  lemma {:induction false} MapOfSize(xs: seq<Attr>)
    requires Sorted(xs)
    ensures |MapOf(xs)| == |xs|
  {
    if xs != [] {
      var ys, x := xs[..|xs| - 1], xs[|xs| - 1];
      MapOfSize(ys);
      if x.name in MapOf(ys) {
        var i := MapOfOnly(ys, x.name);
      }
      assert MapOf(xs).Keys == MapOf(ys).Keys + {x.name};
    }
  }

  /** The sorted list with a given meaning is unique. */
  lemma {:induction false} ListingUnique(xs: seq<Attr>, ys: seq<Attr>)
    requires Sorted(xs) && Sorted(ys) && MapOf(xs) == MapOf(ys)
    ensures xs == ys
    decreases |xs|
  {
    MapOfSize(xs);
    MapOfSize(ys);
    if xs != [] {
      var n := |xs| - 1;
      MapOfAt(xs, n);
      MapOfAt(ys, n);
      var i := MapOfOnly(ys, xs[n].name);
      var j := MapOfOnly(xs, ys[n].name);
      WithoutLast(xs);
      WithoutLast(ys);
      ListingUnique(xs[..n], ys[..n]);
    }
  }

  lemma WithoutLast(xs: seq<Attr>)
    requires Sorted(xs) && xs != []
    ensures MapOf(xs[..|xs| - 1]) == MapOf(xs) - {xs[|xs| - 1].name}
  {
    var ys := xs[..|xs| - 1];
    if xs[|xs| - 1].name in MapOf(ys) {
      var i := MapOfOnly(ys, xs[|xs| - 1].name);
    }
  }

  /** The value a name has among the attributes from a position on. */
  function From(xs: seq<Attr>, i: nat, name: Symbol): Option<Value>
    decreases |xs| - i
  {
    if i >= |xs| then None
    else if xs[i].name == name then Some(xs[i].value)
    else From(xs, i + 1, name)
  }

  lemma {:induction false} FromSkips(xs: seq<Attr>, i: nat, j: nat, name: Symbol)
    requires i <= j <= |xs| && forall k :: i <= k < j ==> xs[k].name != name
    ensures From(xs, i, name) == From(xs, j, name)
    decreases j - i
  {
    if i < j {
      FromSkips(xs, i + 1, j, name);
    }
  }

  lemma FromMap(xs: seq<Attr>, name: Symbol)
    requires Sorted(xs)
    ensures From(xs, 0, name) == Find(MapOf(xs), name)
  {
    if name in MapOf(xs) {
      var i := MapOfOnly(xs, name);
      MapOfAt(xs, i);
      FromSkips(xs, 0, i, name);
    } else {
      forall k | 0 <= k < |xs|
        ensures xs[k].name != name
      {
        MapOfAt(xs, k);
      }
      FromSkips(xs, 0, |xs|, name);
    }
  }

  /* Layers */

  /** `Bindings::maxLayers`. */
  const MAX_LAYERS := 8

  /** One array of attributes on top of another set; `size` and `layers` are the cached
      counts of the whole chain. */
  datatype Bindings = Bindings(attrs: seq<Attr>, base: Option<Bindings>, size: nat, layers: nat)

  /** What a chain means: upper layers win. */
  ghost function Meaning(b: Bindings): map<Symbol, Value> {
    if b.base.None? then MapOf(b.attrs) else Meaning(b.base.value) + MapOf(b.attrs)
  }

  /** Every array of the chain is sorted, the cached counts are right, and the chain is
      within its bound. */
  ghost predicate WellFormed(b: Bindings) {
    && Sorted(b.attrs)
    && b.size == |Meaning(b)|
    && (b.base.None? ==> b.layers == 1)
    && (b.base.Some? ==> WellFormed(b.base.value) && b.layers == b.base.value.layers + 1)
    && b.layers <= MAX_LAYERS
  }

  /** Bisection in one array. */
  method GetInChunk(xs: seq<Attr>, name: Symbol) returns (r: Option<Value>)
    requires Sorted(xs)
    ensures r == Find(MapOf(xs), name)
  {
    var lo, hi := 0, |xs|;
    while lo < hi
      invariant 0 <= lo <= hi <= |xs|
      invariant forall i :: 0 <= i < lo ==> xs[i].name < name
      invariant forall i :: hi <= i < |xs| ==> name <= xs[i].name
    {
      var mid := (lo + hi) / 2;
      if xs[mid].name < name {
        lo := mid + 1;
      } else {
        hi := mid;
      }
    }
    if lo < |xs| && xs[lo].name == name {
      MapOfAt(xs, lo);
      return Some(xs[lo].value);
    }
    if name in MapOf(xs) {
      var i := MapOfOnly(xs, name);
    }
    r := None;
  }

  /** `Bindings::get`: top layer first. */
  method Get(b: Bindings, name: Symbol) returns (r: Option<Value>)
    requires WellFormed(b)
    ensures r == Find(Meaning(b), name)
  {
    var chunk := Some(b);
    while chunk.Some?
      invariant chunk.Some? ==> WellFormed(chunk.value) && Find(Meaning(b), name) == Find(Meaning(chunk.value), name)
      invariant chunk.None? ==> Find(Meaning(b), name) == None
      decreases chunk
    {
      r := GetInChunk(chunk.value.attrs, name);
      if r.Some? {
        return;
      }
      chunk := chunk.value.base;
    }
    r := None;
  }

  /* The layers a merge reads, top first */

  ghost function Chunks(b: Bindings): seq<seq<Attr>> {
    (if b.attrs == [] then [] else [b.attrs]) + if b.base.None? then [] else Chunks(b.base.value)
  }

  /** The cursors of a merge: for a layer still in the heap, where its cursor points. */
  type Heap = map<nat, nat>

  ghost predicate HeapOk(chunks: seq<seq<Attr>>, heap: Heap) {
    && (forall c :: 0 <= c < |chunks| ==> Sorted(chunks[c]))
    && (forall c :: c in heap ==> c < |chunks| && heap[c] < |chunks[c]|)
  }

  /** What one cursor has left for a name. */
  ghost function Left(chunks: seq<seq<Attr>>, heap: Heap, c: nat, name: Symbol): Option<Value>
    requires c < |chunks|
  {
    if c in heap then From(chunks[c], heap[c], name) else None
  }

  /** What the first cursor that has the name, from `c` on, has left for it. */
  ghost function Top(chunks: seq<seq<Attr>>, heap: Heap, c: nat, name: Symbol): Option<Value>
    decreases |chunks| - c
  {
    if c >= |chunks| then None
    else if Left(chunks, heap, c, name).Some? then Left(chunks, heap, c, name)
    else Top(chunks, heap, c + 1, name)
  }

  lemma {:induction false} TopSkips(chunks: seq<seq<Attr>>, heap: Heap, c: nat, d: nat, name: Symbol)
    requires c <= d <= |chunks| && forall k :: c <= k < d ==> Left(chunks, heap, k, name) == None
    ensures Top(chunks, heap, c, name) == Top(chunks, heap, d, name)
    decreases d - c
  {
    if c < d {
      TopSkips(chunks, heap, c + 1, d, name);
    }
  }

  lemma {:induction false} TopSame(chunks: seq<seq<Attr>>, heap: Heap, heap': Heap, c: nat, name: Symbol)
    requires forall k :: c <= k < |chunks| ==> Left(chunks, heap, k, name) == Left(chunks, heap', k, name)
    ensures Top(chunks, heap, c, name) == Top(chunks, heap', c, name)
    decreases |chunks| - c
  {
    if c < |chunks| {
      TopSame(chunks, heap, heap', c + 1, name);
    }
  }

  /** Every cursor at the start of its layer. */
  function Start(n: nat): (heap: Heap)
    ensures forall c: nat :: c in heap <==> c < n
    ensures forall c: nat :: c in heap ==> heap[c] == 0
  {
    if n == 0 then map[] else Start(n - 1)[n - 1 := 0]
  }

  lemma {:induction false} TopBelow(x: seq<Attr>, chunks: seq<seq<Attr>>, c: nat, name: Symbol)
    ensures Top([x] + chunks, Start(|chunks| + 1), c + 1, name) == Top(chunks, Start(|chunks|), c, name)
    decreases |chunks| - c
  {
    if c < |chunks| {
      TopBelow(x, chunks, c + 1, name);
    }
  }

  lemma {:induction false} ChunksSorted(b: Bindings, c: nat)
    requires WellFormed(b) && c < |Chunks(b)|
    ensures Sorted(Chunks(b)[c]) && Chunks(b)[c] != []
  {
    if b.attrs == [] {
      ChunksSorted(b.base.value, c);
    } else if c > 0 {
      ChunksSorted(b.base.value, c - 1);
    }
  }

  /** At the start, the cursors hold exactly what the chain means. */
  lemma {:induction false} StartMeans(b: Bindings, name: Symbol)
    requires WellFormed(b)
    ensures Top(Chunks(b), Start(|Chunks(b)|), 0, name) == Find(Meaning(b), name)
  {
    var below := if b.base.None? then [] else Chunks(b.base.value);
    ghost var m := if b.base.None? then map[] else Meaning(b.base.value);
    if b.base.Some? {
      StartMeans(b.base.value, name);
    }
    StartLayer(b.attrs, below, m, name);
    assert b.attrs == [] ==> Chunks(b) == below;
  }

  lemma StartLayer(attrs: seq<Attr>, below: seq<seq<Attr>>, m: map<Symbol, Value>, name: Symbol)
    requires Sorted(attrs) && Top(below, Start(|below|), 0, name) == Find(m, name)
    ensures var chunks := if attrs == [] then below else [attrs] + below;
      Top(chunks, Start(|chunks|), 0, name) == Find(m + MapOf(attrs), name)
  {
    if attrs != [] {
      FromMap(attrs, name);
      TopBelow(attrs, below, 0, name);
    }
  }

  /* One step of the merge */

  predicate Before(chunks: seq<seq<Attr>>, heap: Heap, c: nat, d: nat)
    requires c in heap && c < |chunks| && heap[c] < |chunks[c]|
    requires d in heap && d < |chunks| && heap[d] < |chunks[d]|
  {
    var x, y := chunks[c][heap[c]].name, chunks[d][heap[d]].name;
    x < y || (x == y && c < d)
  }

  ghost predicate Least(chunks: seq<seq<Attr>>, heap: Heap, c: nat)
    requires HeapOk(chunks, heap)
  {
    c in heap && forall d :: d in heap && d != c ==> Before(chunks, heap, c, d)
  }

  /** No cursor has anything below the least one's attribute, and for that name the least
      one is the first that has it. */
  lemma LeastIsTop(chunks: seq<seq<Attr>>, heap: Heap, c: nat, name: Symbol)
    requires HeapOk(chunks, heap) && Least(chunks, heap, c) && name <= chunks[c][heap[c]].name
    ensures Top(chunks, heap, 0, name)
         == if name == chunks[c][heap[c]].name then Some(chunks[c][heap[c]].value) else None
  {
    forall d | 0 <= d < |chunks| && (d < c || name < chunks[c][heap[c]].name)
      ensures Left(chunks, heap, d, name) == None
    {
      if d in heap {
        assert d == c || Before(chunks, heap, c, d);
        FromSkips(chunks[d], heap[d], |chunks[d]|, name);
      }
    }
    TopSkips(chunks, heap, 0, if name == chunks[c][heap[c]].name then c else |chunks|, name);
  }

  /** The heap after one cursor has moved to a position of its layer. */
  function Moved(chunks: seq<seq<Attr>>, heap: Heap, c: nat, i: nat): Heap
    requires c < |chunks|
  {
    if i < |chunks[c]| then heap[c := i] else heap - {c}
  }

  /** Moving a cursor past names up to a bound changes nothing beyond the bound. */
  lemma MoveKeepsTop(chunks: seq<seq<Attr>>, heap: Heap, c: nat, i: nat, bound: int, name: Symbol)
    requires HeapOk(chunks, heap) && c in heap && heap[c] <= i <= |chunks[c]| && name > bound
    requires forall k :: heap[c] <= k < i ==> chunks[c][k].name <= bound
    ensures Top(chunks, Moved(chunks, heap, c, i), 0, name) == Top(chunks, heap, 0, name)
  {
    FromSkips(chunks[c], heap[c], i, name);
    TopSame(chunks, heap, Moved(chunks, heap, c, i), 0, name);
  }

  /** Beyond a bound, the cursors hold exactly what is listed from a position on. */
  ghost predicate Synced(chunks: seq<seq<Attr>>, heap: Heap, listing: seq<Attr>, pos: nat) {
    && HeapOk(chunks, heap) && Sorted(listing) && pos <= |listing|
    && forall name: Symbol :: (pos == 0 || name > listing[pos - 1].name) ==>
         Top(chunks, heap, 0, name) == From(listing, 0, name)
  }

  lemma SyncedHeap(chunks: seq<seq<Attr>>, heap: Heap, listing: seq<Attr>, pos: nat)
    requires Synced(chunks, heap, listing, pos)
    ensures HeapOk(chunks, heap) && pos <= |listing|
  {
  }

  function Bound(listing: seq<Attr>, pos: nat): int
    requires pos <= |listing|
  {
    if pos == 0 then -1 else listing[pos - 1].name
  }

  lemma EmptyHeap(chunks: seq<seq<Attr>>, listing: seq<Attr>, pos: nat)
    requires Synced(chunks, map[], listing, pos)
    ensures pos == |listing|
  {
    if pos < |listing| {
      FromSkips(listing, 0, pos, listing[pos].name);
      TopSkips(chunks, map[], 0, |chunks|, listing[pos].name);
    }
  }

  /** The least cursor, when it is past the bound, points at the next listed attribute. */
  lemma LeastIsNext(chunks: seq<seq<Attr>>, heap: Heap, c: nat, listing: seq<Attr>, pos: nat)
    requires Synced(chunks, heap, listing, pos) && Least(chunks, heap, c)
    requires chunks[c][heap[c]].name > Bound(listing, pos)
    ensures pos < |listing| && chunks[c][heap[c]] == listing[pos]
  {
    var x := chunks[c][heap[c]];
    LeastIsTop(chunks, heap, c, x.name);
    FromMap(listing, x.name);
    var i := MapOfOnly(listing, x.name);
    MapOfAt(listing, i);
    assert i >= pos;
    if pos < i {
      LeastIsTop(chunks, heap, c, listing[pos].name);
      FromSkips(listing, 0, pos, listing[pos].name);
    }
  }

  lemma MoveKeepsSynced(chunks: seq<seq<Attr>>, heap: Heap, c: nat, i: nat, listing: seq<Attr>, pos: nat, pos': nat)
    requires Synced(chunks, heap, listing, pos) && c in heap && heap[c] <= i <= |chunks[c]|
    requires pos <= pos' <= |listing| && forall k :: heap[c] <= k < i ==> chunks[c][k].name <= Bound(listing, pos')
    ensures Synced(chunks, Moved(chunks, heap, c, i), listing, pos') && HeapOk(chunks, Moved(chunks, heap, c, i))
  {
    forall name: Symbol | pos' == 0 || name > listing[pos' - 1].name
      ensures Top(chunks, Moved(chunks, heap, c, i), 0, name) == From(listing, 0, name)
    {
      MoveKeepsTop(chunks, heap, c, i, Bound(listing, pos'), name);
    }
  }

  /** What the cursors have left, for termination. */
  ghost function Remaining(chunks: seq<seq<Attr>>, heap: Heap): set<(nat, nat)>
    requires HeapOk(chunks, heap)
  {
    set c, i | c in heap && heap[c] <= i < |chunks[c]| :: (c, i)
  }

  lemma RemainingDrops(chunks: seq<seq<Attr>>, heap: Heap, c: nat, i: nat)
    requires HeapOk(chunks, heap) && c in heap && heap[c] < i <= |chunks[c]|
    ensures HeapOk(chunks, Moved(chunks, heap, c, i))
    ensures Remaining(chunks, Moved(chunks, heap, c, i)) < Remaining(chunks, heap)
  {
    var gone := (c, heap[c]);
    assert gone in Remaining(chunks, heap) && gone !in Remaining(chunks, Moved(chunks, heap, c, i));
  }

  /** The least cursor; the source keeps the cursors in a binary heap. */
  method LeastCursor(chunks: seq<seq<Attr>>, heap: Heap) returns (c: nat)
    requires HeapOk(chunks, heap) && heap != map[]
    ensures Least(chunks, heap, c)
  {
    var best := None;
    for d := 0 to |chunks|
      invariant best.Some? ==> best.value < d && best.value in heap
      invariant best.Some? ==> forall e :: e in heap && e < d && e != best.value ==> Before(chunks, heap, best.value, e)
      invariant best.None? ==> forall e :: e in heap ==> e >= d
    {
      if d in heap && (best.None? || Before(chunks, heap, d, best.value)) {
        best := Some(d);
      }
    }
    assert exists e :: e in heap by {
      assert heap.Keys != {};
    }
    c := best.value;
  }

  /* The listing of a map */

  lemma {:induction false} HasLargest(m: map<Symbol, Value>) returns (n: Symbol)
    requires m != map[]
    ensures n in m && forall k :: k in m ==> k <= n
  {
    var some :| some in m;
    var rest := m - {some};
    assert forall k :: k in m && k != some ==> k in rest;
    n := some;
    if rest != map[] {
      assert |rest.Keys| < |m.Keys| by {
        assert rest.Keys == m.Keys - {some};
      }
      var k := HasLargest(rest);
      n := if k > some then k else some;
    }
  }

  /** The sorted list of a map's attributes. */
  lemma {:induction false} ListingOf(m: map<Symbol, Value>) returns (xs: seq<Attr>)
    ensures Sorted(xs) && MapOf(xs) == m
    decreases |m|
  {
    if m == map[] {
      xs := [];
    } else {
      var n := HasLargest(m);
      var rest := m - {n};
      Smaller(m, n);
      var ys := ListingOf(rest);
      xs := ys + [Attr(n, m[n])];
      Pushed(m, n, ys);
    }
  }

  lemma Smaller(m: map<Symbol, Value>, n: Symbol)
    requires n in m
    ensures |m - {n}| < |m| && (m - {n})[n := m[n]] == m
  {
    assert (m - {n}).Keys == m.Keys - {n};
  }

  /** The attribute with the largest name goes last. */
  lemma Pushed(m: map<Symbol, Value>, n: Symbol, ys: seq<Attr>)
    requires n in m && (forall x :: x in m ==> x <= n)
    requires Sorted(ys) && MapOf(ys) == m - {n}
    ensures Sorted(ys + [Attr(n, m[n])]) && MapOf(ys + [Attr(n, m[n])]) == m
  {
    hide MapOf;
    forall i | 0 <= i < |ys|
      ensures ys[i].name < n
    {
      MapOfAt(ys, i);
      assert ys[i].name in m - {n};
    }
    MapOfPush(ys, Attr(n, m[n]));
    Smaller(m, n);
  }

  lemma SingleLayer(b: Bindings, listing: seq<Attr>)
    requires WellFormed(b) && b.base.None? && Sorted(listing) && MapOf(listing) == Meaning(b)
    ensures listing == b.attrs && b.size == |listing|
    ensures Chunks(b) == if listing == [] then [] else [listing]
  {
    ListingUnique(listing, b.attrs);
    MapOfSize(b.attrs);
  }

  /** `Bindings::iterator`: the attributes of `listing`, one after the other. */
  class MergeIterator {
    /** The arrays of the chain that have attributes, top first. */
    const chunks: seq<seq<Attr>>
    /** The cursors a merge still has; unused when there is a single layer. */
    var heap: Heap
    /** The attribute pointed at; none when the iteration is over. */
    var current: Option<Attr>
    const doMerge: bool
    /** Where `current` is in the single layer. */
    var at: nat
    ghost const listing: seq<Attr>
    ghost var pos: nat

    ghost predicate Valid()
      reads this
    {
      && pos <= |listing|
      && current == (if pos < |listing| then Some(listing[pos]) else None)
      && (doMerge && current.Some? ==> Synced(chunks, heap, listing, pos + 1))
      && (!doMerge && current.Some? ==> chunks == [listing] && at == pos)
    }

    constructor (b: Bindings)
      requires WellFormed(b)
      ensures Valid() && pos == 0 && Sorted(listing) && MapOf(listing) == Meaning(b)
    {
      hide WellFormed, Meaning, MapOf, Sorted, Synced;
      ghost var list := ListingOf(Meaning(b));
      doMerge, listing, pos, at, current := b.base.Some?, list, 0, 0, None;
      var layers := ChunkArrays(b);
      chunks, heap := layers, Start(|layers|);
      new;
      if b.base.None? {
        SingleLayer(b, listing);
        if b.size > 0 {
          current := Some(chunks[0][0]);
        }
      } else {
        StartSynced(b, listing);
        if heap == map[] {
          EmptyHeap(chunks, listing, 0);
        } else {
          var c := LeastCursor(chunks, heap);
          Next(c);
        }
      }
    }

    /** `next`: point at a cursor's attribute and put the rest of the cursor back. */
    method Next(c: nat)
      requires Synced(chunks, heap, listing, pos) && doMerge && Least(chunks, heap, c)
      requires chunks[c][heap[c]].name > Bound(listing, pos)
      modifies `heap, `current
      ensures Valid() && current.Some?
    {
      LeastIsNext(chunks, heap, c, listing, pos);
      MoveKeepsSynced(chunks, heap, c, heap[c] + 1, listing, pos, pos + 1);
      current := Some(chunks[c][heap[c]]);
      heap := Moved(chunks, heap, c, heap[c] + 1);
    }

    /** `operator++`. */
    method Advance()
      requires Valid() && current.Some?
      modifies this
      ensures Valid() && pos == old(pos) + 1
    {
      hide Synced, Sorted, Remaining, Moved, Before;
      var last := current.value.name;
      pos := pos + 1;
      if !doMerge {
        at := at + 1;
        current := if at == |chunks[0]| then None else Some(chunks[0][at]);
        return;
      }
      SyncedHeap(chunks, heap, listing, pos);
      if heap == map[] {
        EmptyHeap(chunks, listing, pos);
        current := None;
        return;
      }
      var c := LeastCursor(chunks, heap);
      while chunks[c][heap[c]].name <= last
        invariant HeapOk(chunks, heap) && Synced(chunks, heap, listing, pos) && Least(chunks, heap, c)
        invariant pos == old(pos) + 1 && last == listing[pos - 1].name
        decreases Remaining(chunks, heap)
      {
        var i := Consume(chunks[c], heap[c], last);
        MoveKeepsSynced(chunks, heap, c, i, listing, pos, pos);
        RemainingDrops(chunks, heap, c, i);
        heap := Moved(chunks, heap, c, i);
        if heap == map[] {
          EmptyHeap(chunks, listing, pos);
          current := None;
          return;
        }
        c := LeastCursor(chunks, heap);
      }
      Next(c);
    }
  }

  /** `consume`: past every name up to a bound. */
  method Consume(xs: seq<Attr>, start: nat, bound: Symbol) returns (i: nat)
    requires Sorted(xs) && start < |xs|
    ensures start <= i <= |xs| && (forall k :: start <= k < i ==> xs[k].name <= bound)
    ensures xs[start].name <= bound ==> start < i
    ensures i < |xs| ==> xs[i].name > bound
  {
    i := start;
    while i < |xs| && xs[i].name <= bound
      invariant start <= i <= |xs| && forall k :: start <= k < i ==> xs[k].name <= bound
    {
      i := i + 1;
    }
  }

  ghost function ChunksFrom(layer: Option<Bindings>): seq<seq<Attr>> {
    if layer.None? then [] else Chunks(layer.value)
  }

  lemma NextChunks(b: Bindings)
    ensures Chunks(b) == (if b.attrs == [] then [] else [b.attrs]) + ChunksFrom(b.base)
  {
  }

  method ChunkArrays(b: Bindings) returns (chunks: seq<seq<Attr>>)
    ensures chunks == Chunks(b)
  {
    hide Chunks;
    chunks := [];
    var layer := Some(b);
    while layer.Some?
      invariant Chunks(b) == chunks + ChunksFrom(layer)
      decreases layer
    {
      NextChunks(layer.value);
      if layer.value.attrs != [] {
        chunks := chunks + [layer.value.attrs];
      }
      layer := layer.value.base;
    }
  }

  lemma StartSynced(b: Bindings, listing: seq<Attr>)
    requires WellFormed(b) && Sorted(listing) && MapOf(listing) == Meaning(b)
    ensures Synced(Chunks(b), Start(|Chunks(b)|), listing, 0) && HeapOk(Chunks(b), Start(|Chunks(b)|))
  {
    forall c | 0 <= c < |Chunks(b)|
      ensures Sorted(Chunks(b)[c]) && Chunks(b)[c] != []
    {
      ChunksSorted(b, c);
    }
    forall name: Symbol
      ensures Top(Chunks(b), Start(|Chunks(b)|), 0, name) == From(listing, 0, name)
    {
      StartMeans(b, name);
      FromMap(listing, name);
    }
  }

  /** A full iteration lists the set: strictly sorted, nothing missing, nothing extra. */
  method List(b: Bindings) returns (xs: seq<Attr>)
    requires WellFormed(b)
    ensures Sorted(xs) && MapOf(xs) == Meaning(b) && |xs| == b.size
  {
    xs := [];
    var i := new MergeIterator(b);
    ghost var listing := i.listing;
    while i.current.Some?
      invariant i.Valid() && i.listing == listing && xs == listing[..i.pos]
      decreases |listing| - i.pos
    {
      xs := xs + [i.current.value];
      i.Advance();
    }
    assert xs == listing;
    MapOfSize(xs);
  }

  /* Two sorted lists side by side */

  /** Neither list has, before its position, a name the other still has to come to. */
  ghost predicate Aligned(xs: seq<Attr>, i: nat, ys: seq<Attr>, j: nat) {
    && Sorted(xs) && Sorted(ys) && i <= |xs| && j <= |ys|
    && (forall k :: 0 <= k < i && j < |ys| ==> xs[k].name < ys[j].name)
    && (forall k :: 0 <= k < j && i < |xs| ==> ys[k].name < xs[i].name)
  }

  /** Names two partly read lists have in common. */
  ghost function CommonNames(xs: seq<Attr>, i: nat, ys: seq<Attr>, j: nat): set<Symbol>
    requires i <= |xs| && j <= |ys|
  {
    MapOf(xs[..i]).Keys * MapOf(ys[..j]).Keys
  }

  lemma NotYet(xs: seq<Attr>, i: nat, name: Symbol)
    requires i <= |xs| && forall k :: 0 <= k < i ==> xs[k].name < name
    ensures name !in MapOf(xs[..i])
  {
    if name in MapOf(xs[..i]) {
      var k := MapOfOnly(xs[..i], name);
    }
  }

  lemma CommonSkip(xs: seq<Attr>, i: nat, ys: seq<Attr>, j: nat)
    requires Aligned(xs, i, ys, j) && i < |xs| && (j < |ys| ==> xs[i].name < ys[j].name)
    ensures Aligned(xs, i + 1, ys, j) && CommonNames(xs, i + 1, ys, j) == CommonNames(xs, i, ys, j)
  {
    MapOfNext(xs, i);
    NotYet(ys, j, xs[i].name);
  }

  lemma CommonBoth(xs: seq<Attr>, i: nat, ys: seq<Attr>, j: nat)
    requires Aligned(xs, i, ys, j) && i < |xs| && j < |ys| && xs[i].name == ys[j].name
    ensures Aligned(xs, i + 1, ys, j + 1)
    ensures |CommonNames(xs, i + 1, ys, j + 1)| == |CommonNames(xs, i, ys, j)| + 1
  {
    MapOfNext(xs, i);
    MapOfNext(ys, j);
    NotYet(ys, j, xs[i].name);
    assert CommonNames(xs, i + 1, ys, j + 1) == CommonNames(xs, i, ys, j) + {xs[i].name};
  }

  lemma Flip(xs: seq<Attr>, i: nat, ys: seq<Attr>, j: nat)
    requires Aligned(xs, i, ys, j)
    ensures Aligned(ys, j, xs, i) && CommonNames(xs, i, ys, j) == CommonNames(ys, j, xs, i)
  {
  }

  lemma {:induction false} CommonRest(xs: seq<Attr>, i: nat, ys: seq<Attr>, j: nat)
    requires Aligned(xs, i, ys, j) && (i == |xs| || j == |ys|)
    ensures CommonNames(xs, i, ys, j) == CommonNames(xs, |xs|, ys, |ys|)
    decreases |xs| - i + |ys| - j
  {
    if i < |xs| {
      CommonSkip(xs, i, ys, j);
      CommonRest(xs, i + 1, ys, j);
    } else if j < |ys| {
      Flip(xs, i, ys, j);
      CommonSkip(ys, j, xs, i);
      Flip(ys, j + 1, xs, i);
      CommonRest(xs, i, ys, j + 1);
    }
  }

  lemma StartAligned(xs: seq<Attr>, ys: seq<Attr>)
    requires Sorted(xs) && Sorted(ys)
    ensures Aligned(xs, 0, ys, 0) && CommonNames(xs, 0, ys, 0) == {}
    ensures CommonNames(xs, |xs|, ys, |ys|) == MapOf(xs).Keys * MapOf(ys).Keys
  {
    assert xs[..|xs|] == xs && ys[..|ys|] == ys;
  }

  /** How many names two sets share, by reading both in step. */
  method CountInStep(base: Bindings, attrs: seq<Attr>) returns (duplicates: nat)
    requires WellFormed(base) && Sorted(attrs)
    ensures duplicates == |Meaning(base).Keys * MapOf(attrs).Keys|
  {
    hide Aligned, CommonNames, MapOf, Sorted, WellFormed, Meaning;
    duplicates := 0;
    var i := new MergeIterator(base);
    var j := 0;
    ghost var listing := i.listing;
    StartAligned(listing, attrs);
    while i.current.Some? && j < |attrs|
      invariant i.Valid() && i.listing == listing && j <= |attrs| && Aligned(listing, i.pos, attrs, j)
      invariant duplicates == |CommonNames(listing, i.pos, attrs, j)|
      decreases |listing| - i.pos + |attrs| - j
    {
      if i.current.value.name < attrs[j].name {
        CommonSkip(listing, i.pos, attrs, j);
        i.Advance();
      } else if attrs[j].name < i.current.value.name {
        Flip(listing, i.pos, attrs, j);
        CommonSkip(attrs, j, listing, i.pos);
        Flip(attrs, j + 1, listing, i.pos);
        j := j + 1;
      } else {
        CommonBoth(listing, i.pos, attrs, j);
        duplicates := duplicates + 1;
        i.Advance();
        j := j + 1;
      }
    }
    CommonRest(listing, i.pos, attrs, j);
  }

  /** The same count, by looking each name up. */
  method CountByLookup(base: Bindings, attrs: seq<Attr>) returns (duplicates: nat)
    requires WellFormed(base) && Sorted(attrs)
    ensures duplicates == |Meaning(base).Keys * MapOf(attrs).Keys|
  {
    duplicates := 0;
    ghost var names := Meaning(base).Keys;
    for j := 0 to |attrs|
      invariant duplicates == |names * MapOf(attrs[..j]).Keys|
    {
      var found := Get(base, attrs[j].name);
      MapOfNext(attrs, j);
      NotYet(attrs, j, attrs[j].name);
      ghost var before := names * MapOf(attrs[..j]).Keys;
      if found.Some? {
        assert names * MapOf(attrs[..j + 1]).Keys == before + {attrs[j].name};
        duplicates := duplicates + 1;
      } else {
        assert names * MapOf(attrs[..j + 1]).Keys == before;
      }
    }
    assert attrs[..|attrs|] == attrs;
  }

  lemma UnionSize(m: map<Symbol, Value>, n: map<Symbol, Value>)
    ensures |m + n| == |m| + |n| - |m.Keys * n.Keys|
  {
    assert (m + n).Keys == m.Keys + n.Keys;
    assert |m.Keys + n.Keys| == |m.Keys| + |n.Keys| - |m.Keys * n.Keys|;
  }

  /** `finishSizeIfNecessary`: the size of a set with `attrs` layered on top of a base. */
  method LayeredSize(base: Bindings, attrs: seq<Attr>) returns (size: nat)
    requires WellFormed(base) && Sorted(attrs)
    ensures size == |Meaning(base) + MapOf(attrs)|
  {
    var duplicates: nat;
    if |attrs| > base.size {
      duplicates := CountInStep(base, attrs);
    } else {
      duplicates := CountByLookup(base, attrs);
    }
    UnionSize(Meaning(base), MapOf(attrs));
    MapOfSize(attrs);
    size := base.size + |attrs| - duplicates;
  }

  /* The update operator */

  /** What two partly read lists mean together: the second wins. */
  ghost function Union(xs: seq<Attr>, i: nat, ys: seq<Attr>, j: nat): map<Symbol, Value>
    requires i <= |xs| && j <= |ys|
  {
    MapOf(xs[..i]) + MapOf(ys[..j])
  }

  lemma UnionLeft(xs: seq<Attr>, i: nat, ys: seq<Attr>, j: nat)
    requires Aligned(xs, i, ys, j) && i < |xs|
    ensures Union(xs, i + 1, ys, j) == Union(xs, i, ys, j)[xs[i].name := xs[i].value]
  {
    MapOfNext(xs, i);
    NotYet(ys, j, xs[i].name);
  }

  lemma UnionRight(xs: seq<Attr>, i: nat, ys: seq<Attr>, j: nat)
    requires i <= |xs| && j < |ys|
    ensures Union(xs, i, ys, j + 1) == Union(xs, i, ys, j)[ys[j].name := ys[j].value]
  {
    MapOfNext(ys, j);
  }

  lemma UnionBoth(xs: seq<Attr>, i: nat, ys: seq<Attr>, j: nat)
    requires i < |xs| && j < |ys| && xs[i].name == ys[j].name
    ensures Union(xs, i + 1, ys, j + 1) == Union(xs, i, ys, j)[ys[j].name := ys[j].value]
  {
    MapOfNext(xs, i);
    MapOfNext(ys, j);
  }

  /** What has been written so far: the union of what has been read, in order, and below
      everything still to be read. */
  ghost predicate Merged(out: seq<Attr>, xs: seq<Attr>, i: nat, ys: seq<Attr>, j: nat) {
    && Aligned(xs, i, ys, j) && Sorted(out) && |out| <= i + j
    && MapOf(out) == Union(xs, i, ys, j)
    && (forall k :: 0 <= k < |out| && i < |xs| ==> out[k].name < xs[i].name)
    && (forall k :: 0 <= k < |out| && j < |ys| ==> out[k].name < ys[j].name)
  }

  lemma WriteLeft(out: seq<Attr>, xs: seq<Attr>, i: nat, ys: seq<Attr>, j: nat)
    requires Merged(out, xs, i, ys, j) && i < |xs| && (j < |ys| ==> xs[i].name < ys[j].name)
    ensures Merged(out + [xs[i]], xs, i + 1, ys, j)
  {
    MapOfPush(out, xs[i]);
    UnionLeft(xs, i, ys, j);
  }

  lemma WriteRight(out: seq<Attr>, xs: seq<Attr>, i: nat, ys: seq<Attr>, j: nat)
    requires Merged(out, xs, i, ys, j) && j < |ys| && (i < |xs| ==> ys[j].name < xs[i].name)
    ensures Merged(out + [ys[j]], xs, i, ys, j + 1)
  {
    MapOfPush(out, ys[j]);
    UnionRight(xs, i, ys, j);
  }

  lemma WriteBoth(out: seq<Attr>, xs: seq<Attr>, i: nat, ys: seq<Attr>, j: nat)
    requires Merged(out, xs, i, ys, j) && i < |xs| && j < |ys| && xs[i].name == ys[j].name
    ensures Merged(out + [ys[j]], xs, i + 1, ys, j + 1)
  {
    MapOfPush(out, ys[j]);
    UnionBoth(xs, i, ys, j);
  }

  lemma StartMerged(xs: seq<Attr>, ys: seq<Attr>)
    requires Sorted(xs) && Sorted(ys)
    ensures Merged([], xs, 0, ys, 0)
  {
  }

  lemma EndMerged(out: seq<Attr>, xs: seq<Attr>, ys: seq<Attr>)
    requires Merged(out, xs, |xs|, ys, |ys|)
    ensures Sorted(out) && MapOf(out) == MapOf(xs) + MapOf(ys) && |MapOf(out)| == |out|
  {
    assert xs[..|xs|] == xs && ys[..|ys|] == ys;
    MapOfSize(out);
  }

  lemma MergedRoom(out: seq<Attr>, xs: seq<Attr>, i: nat, ys: seq<Attr>, j: nat)
    requires Merged(out, xs, i, ys, j) && (i < |xs| || j < |ys|)
    ensures |out| < |xs| + |ys|
  {
  }

  lemma SingleMeans(xs: seq<Attr>)
    requires Sorted(xs)
    ensures WellFormed(Bindings(xs, None, |xs|, 1)) && Meaning(Bindings(xs, None, |xs|, 1)) == MapOf(xs)
  {
    MapOfSize(xs);
  }

  lemma ListingSize(b: Bindings, xs: seq<Attr>)
    requires WellFormed(b) && Sorted(xs) && MapOf(xs) == Meaning(b)
    ensures |xs| == b.size
  {
    MapOfSize(xs);
  }

  /** The rest of the left set, once the right one is used up. */
  method DrainLeft(start: seq<Attr>, i: MergeIterator, ghost xs: seq<Attr>, ghost ys: seq<Attr>)
    returns (out: seq<Attr>)
    requires i.Valid() && i.listing == xs && Merged(start, xs, i.pos, ys, |ys|)
    modifies i
    ensures Merged(out, xs, |xs|, ys, |ys|)
  {
    hide Merged, Synced;
    out := start;
    while i.current.Some?
      invariant i.Valid() && Merged(out, xs, i.pos, ys, |ys|)
      decreases |xs| - i.pos
    {
      WriteLeft(out, xs, i.pos, ys, |ys|);
      MergedRoom(out, xs, i.pos, ys, |ys|);
      assert |out| < |xs| + |ys|;
      out := out + [i.current.value];
      i.Advance();
    }
  }

  method DrainRight(start: seq<Attr>, j: MergeIterator, ghost xs: seq<Attr>, ghost ys: seq<Attr>)
    returns (out: seq<Attr>)
    requires j.Valid() && j.listing == ys && Merged(start, xs, |xs|, ys, j.pos)
    modifies j
    ensures Merged(out, xs, |xs|, ys, |ys|)
  {
    hide Merged, Synced;
    out := start;
    while j.current.Some?
      invariant j.Valid() && Merged(out, xs, |xs|, ys, j.pos)
      decreases |ys| - j.pos
    {
      WriteRight(out, xs, |xs|, ys, j.pos);
      MergedRoom(out, xs, |xs|, ys, j.pos);
      assert |out| < |xs| + |ys|;
      out := out + [j.current.value];
      j.Advance();
    }
  }

  /** The copying merge. The builder has room for both sets, so its capacity assertion
      holds at every insertion. */
  method MergeSets(b1: Bindings, b2: Bindings) returns (r: Bindings)
    requires WellFormed(b1) && WellFormed(b2)
    ensures WellFormed(r) && Meaning(r) == Meaning(b1) + Meaning(b2)
  {
    hide Merged, MapOf, Sorted, WellFormed, Meaning, Synced;
    var capacity := b1.size + b2.size;
    var out := [];
    var i := new MergeIterator(b1);
    var j := new MergeIterator(b2);
    ghost var xs, ys := i.listing, j.listing;
    ListingSize(b1, xs);
    ListingSize(b2, ys);
    StartMerged(xs, ys);
    while i.current.Some? && j.current.Some?
      invariant i.Valid() && j.Valid() && i.listing == xs && j.listing == ys
      invariant Merged(out, xs, i.pos, ys, j.pos)
      decreases |xs| - i.pos + |ys| - j.pos
    {
      MergedRoom(out, xs, i.pos, ys, j.pos);
      assert |out| < capacity;
      if i.current.value.name == j.current.value.name {
        WriteBoth(out, xs, i.pos, ys, j.pos);
        out := out + [j.current.value];
        i.Advance();
        j.Advance();
      } else if i.current.value.name < j.current.value.name {
        WriteLeft(out, xs, i.pos, ys, j.pos);
        out := out + [i.current.value];
        i.Advance();
      } else {
        WriteRight(out, xs, i.pos, ys, j.pos);
        out := out + [j.current.value];
        j.Advance();
      }
    }
    if i.current.Some? {
      out := DrainLeft(out, i, xs, ys);
    } else {
      out := DrainRight(out, j, xs, ys);
    }
    EndMerged(out, xs, ys);
    SingleMeans(out);
    r := Bindings(out, None, |out|, 1);
  }

  lemma EmptyMeaning(b: Bindings)
    requires WellFormed(b) && b.size == 0
    ensures Meaning(b) == map[]
  {
  }

  /** A sorted array on top of a set that is not full is well formed, and its attributes win. */
  lemma LayeredOk(base: Bindings, attrs: seq<Attr>, r: Bindings)
    requires WellFormed(base) && base.layers != MAX_LAYERS && Sorted(attrs)
    requires r == Bindings(attrs, Some(base), |Meaning(base) + MapOf(attrs)|, base.layers + 1)
    ensures WellFormed(r) && Meaning(r) == Meaning(base) + MapOf(attrs)
  {
  }

  /** `ExprOpUpdate::eval` on two sets. `threshold` is the setting
      `bindingsUpdateLayerRhsSizeThreshold`. */
  method Update(b1: Bindings, b2: Bindings, threshold: nat) returns (r: Bindings)
    requires WellFormed(b1) && WellFormed(b2)
    ensures WellFormed(r) && Meaning(r) == Meaning(b1) + Meaning(b2)
  {
    hide WellFormed, Meaning, MapOf, Sorted;
    if b1.size == 0 {
      EmptyMeaning(b1);
      return b2;
    }
    if b2.size == 0 {
      EmptyMeaning(b2);
      return b1;
    }
    if b1.layers != MAX_LAYERS && b2.size <= threshold {
      var attrs := List(b2);
      var size := LayeredSize(b1, attrs);
      r := Bindings(attrs, Some(b1), size, b1.layers + 1);
      LayeredOk(b1, attrs, r);
    } else {
      r := MergeSets(b1, b2);
    }
  }

  /* Nested updates */

  /** An expression as the update operator sees it: a set, what evaluating it throws, which may
      be that it is no set, or a nested update. */
  datatype Operand = Leaf(outcome: Outcome<Bindings, Exception>) | Updated(left: Operand, right: Operand)

  ghost predicate LeavesOk(e: Operand) {
    match e
    case Leaf(outcome) => outcome.Done? ==> WellFormed(outcome.value)
    case Updated(left, right) => LeavesOk(left) && LeavesOk(right)
  }

  /** The documented meaning: evaluate the right operand, then the left one, and join them,
      the right one winning. */
  ghost function Denotation(e: Operand): Outcome<map<Symbol, Value>, Exception> {
    match e
    case Leaf(outcome) => if outcome.Done? then Done(Meaning(outcome.value)) else Throws(outcome.error)
    case Updated(left, right) =>
      var r := Denotation(right);
      var l := Denotation(left);
      if r.Throws? then r else if l.Throws? then l else Done(l.value + r.value)
  }

  ghost predicate AllWellFormed(q: seq<Bindings>) {
    forall i :: 0 <= i < |q| ==> WellFormed(q[i])
  }

  /** What a queue means, the rightmost set first. */
  ghost function QueueMeaning(q: seq<Bindings>): map<Symbol, Value> {
    if q == [] then map[] else QueueMeaning(q[1..]) + Meaning(q[0])
  }

  lemma {:induction false} QueueAppend(p: seq<Bindings>, q: seq<Bindings>)
    ensures QueueMeaning(p + q) == QueueMeaning(q) + QueueMeaning(p)
  {
    if p == [] {
      assert p + q == q;
    } else {
      assert (p + q)[1..] == p[1..] + q;
      QueueAppend(p[1..], q);
    }
  }

  lemma QueueStep(q: seq<Bindings>, i: nat)
    requires i < |q|
    ensures QueueMeaning(q[i..]) == QueueMeaning(q[i + 1..]) + Meaning(q[i])
  {
    assert q[i..][1..] == q[i + 1..];
  }

  /** `evalForUpdate`: append the sets of an expression to the queue, rightmost first. */
  method EvalForUpdate(e: Operand, q: seq<Bindings>) returns (r: Outcome<seq<Bindings>, Exception>)
    requires LeavesOk(e) && AllWellFormed(q)
    ensures r.Throws? <==> Denotation(e).Throws?
    ensures r.Throws? ==> r.error == Denotation(e).error
    ensures r.Done? ==> AllWellFormed(r.value)
    ensures r.Done? ==> QueueMeaning(r.value) == Denotation(e).value + QueueMeaning(q)
    decreases e
  {
    hide WellFormed, Meaning;
    match e {
      case Leaf(outcome) =>
        if outcome.Throws? {
          return Throws(outcome.error);
        }
        QueueAppend(q, [outcome.value]);
        assert [outcome.value][1..] == [];
        r := Done(q + [outcome.value]);
      case Updated(left, right) =>
        r := EvalForUpdate(right, q);
        if r.Done? {
          r := EvalForUpdate(left, r.value);
        }
    }
  }

  const EMPTY := Bindings([], None, 0, 1)

  lemma EmptyMeans(q: seq<Bindings>)
    ensures WellFormed(EMPTY) && Meaning(EMPTY) == map[] && QueueMeaning([]) == map[]
    ensures q[|q|..] == [] && q[0..] == q
  {
  }

  /** Join the sets of a queue, from the last one, which is the leftmost operand. */
  method UpdateAll(q: seq<Bindings>, threshold: nat) returns (r: Bindings)
    requires AllWellFormed(q)
    ensures WellFormed(r) && Meaning(r) == QueueMeaning(q)
  {
    hide WellFormed, Meaning, QueueMeaning;
    r := EMPTY;
    EmptyMeans(q);
    for i := |q| downto 0
      invariant WellFormed(r) && Meaning(r) == QueueMeaning(q[i..])
    {
      QueueStep(q, i);
      r := Update(r, q[i], threshold);
    }
  }

  /** `ExprOpUpdate::eval`: any nesting of updates is the right-biased union of its operands,
      in a well-formed set, and throws what the first failing operand from the right throws. */
  method EvalUpdate(e: Operand, threshold: nat) returns (r: Outcome<Bindings, Exception>)
    requires LeavesOk(e)
    ensures r.Throws? <==> Denotation(e).Throws?
    ensures r.Throws? ==> r.error == Denotation(e).error
    ensures r.Done? ==> WellFormed(r.value) && Meaning(r.value) == Denotation(e).value
  {
    hide WellFormed, Meaning, Denotation, LeavesOk;
    var queue := EvalForUpdate(e, []);
    if queue.Throws? {
      return Throws(queue.error);
    }
    var b := UpdateAll(queue.value, threshold);
    assert Denotation(e).value + map[] == Denotation(e).value;
    r := Done(b);
  }

  /** Whichever steps layered or copied, the listing depends on the meaning only. */
  lemma ListingsAgree(b: Bindings, c: Bindings, xs: seq<Attr>, ys: seq<Attr>)
    requires Meaning(b) == Meaning(c) && Sorted(xs) && MapOf(xs) == Meaning(b)
    requires Sorted(ys) && MapOf(ys) == Meaning(c)
    ensures xs == ys
  {
    ListingUnique(xs, ys);
  }
}
