/** The JSON parser's stack machine, fed with parse events. */
module JsonSax {
  import opened Common
  import opened Outcomes

  /** The index of a heap cell. */
  type Ptr = nat

  /** Nix integers, and what the callback for signed numbers takes. */
  type Int64 = n: int | -0x8000_0000_0000_0000 <= n <= 0x7fff_ffff_ffff_ffff

  /** What the callback for unsigned numbers takes. */
  type UInt64 = n: int | 0 <= n <= 0xffff_ffff_ffff_ffff

  /** The integer literals that the lexer reports as integers; all others are floats to it. */
  type IntLiteral = n: int | -0x8000_0000_0000_0000 <= n <= 0xffff_ffff_ffff_ffff

  datatype Error = NullByte | OutOfRange | CloseTopLevel | NotAnObject

  datatype Cell =
    | Unset
    | CNull
    | CBool(b: bool)
    | CInt(n: Int64)
    | CFloat(f: real)
    | CString(s: Bytes)
    | CList(items: seq<Ptr>)
    | CAttrs(attrs: map<Bytes, Ptr>)

  /** The parser states, each owning its parent; `v` is the cell the next value goes to. */
  datatype State =
    | TopState(v: Option<Ptr>)
    | ObjectState(parent: State, v: Option<Ptr>, attrs: map<Bytes, Ptr>)
    | ListState(parent: State, v: Option<Ptr>, values: seq<Ptr>)

  datatype Machine = Machine(rs: State, heap: seq<Cell>)

  datatype Event =
    | Null
    | Boolean(b: bool)
    | Integer(n: Int64)
    | Unsigned(u: UInt64)
    | Float(f: real)
    | String(s: Bytes)
    | StartObject
    | Key(name: Bytes)
    | StartArray
    | End

  /** The largest 64-bit signed integer. */
  const MAX_INT := 0x7fff_ffff_ffff_ffff

  predicate HasNull(s: Bytes) {
    0 in s
  }

  /* The machine's steps */

  /** Every cell the states still write to exists. */
  predicate InHeap(s: State, n: nat) {
    (s.v.Some? ==> s.v.value < n) && (!s.TopState? ==> InHeap(s.parent, n))
  }

  predicate Ok(m: Machine) {
    InHeap(m.rs, |m.heap|)
  }

  lemma {:induction false} InLargerHeap(s: State, n: nat, n': nat)
    requires InHeap(s, n) && n <= n'
    ensures InHeap(s, n')
  {
    if !s.TopState? {
      InLargerHeap(s.parent, n, n');
    }
  }

  /** `value`: the cell of the next value, allocated if there is none. */
  function Alloc(m: Machine): (r: Machine)
    requires Ok(m)
    ensures Ok(r) && r.rs.v.Some? && r.rs.v.value < |r.heap|
  {
    if m.rs.v.Some? then m
    else
      InLargerHeap(m.rs, |m.heap|, |m.heap| + 1);
      Machine(m.rs.(v := Some(|m.heap|)), m.heap + [Unset])
  }

  /** `add`: the value is complete. */
  function Added(s: State): State
    requires s.v.Some?
  {
    match s
    case TopState(_) => s
    case ObjectState(parent, _, attrs) => ObjectState(parent, None, attrs)
    case ListState(parent, v, values) => ListState(parent, None, values + [v.value])
  }

  /** Write a complete value. */
  function Put(m: Machine, cell: Cell): (r: Machine)
    requires Ok(m)
    ensures Ok(r)
  {
    var a := Alloc(m);
    Machine(Added(a.rs), a.heap[a.rs.v.value := cell])
  }

  /** What an event does to the machine. */
  function Step(m: Machine, e: Event): (r: Outcome<Machine, Error>)
    requires Ok(m)
    ensures r.Done? ==> Ok(r.value)
  {
    match e
    case Null => Done(Put(m, CNull))
    case Boolean(b) => Done(Put(m, CBool(b)))
    case Integer(n) => Done(Put(m, CInt(n)))
    case Unsigned(u) => if u > MAX_INT then Throws(OutOfRange) else Done(Put(m, CInt(u)))
    case Float(f) => Done(Put(m, CFloat(f)))
    case String(s) => if HasNull(s) then Throws(NullByte) else Done(Put(m, CString(s)))
    case StartObject => Done(Machine(ObjectState(m.rs, None, map[]), m.heap))
    case StartArray => Done(Machine(ListState(m.rs, None, []), m.heap))
    case Key(name) =>
      if !m.rs.ObjectState? then Throws(NotAnObject)
      else if HasNull(name) then Throws(NullByte)
      else
        var a := Alloc(m);
        Done(Machine(a.rs.(attrs := a.rs.attrs[name := a.rs.v.value]), a.heap))
    case End =>
      match m.rs
      case TopState(_) => Throws(CloseTopLevel)
      case ObjectState(parent, _, attrs) => Done(Put(Machine(parent, m.heap), CAttrs(attrs)))
      case ListState(parent, _, values) => Done(Put(Machine(parent, m.heap), CList(values)))
  }

  function Run(m: Machine, es: seq<Event>): (r: Outcome<Machine, Error>)
    requires Ok(m)
    ensures r.Done? ==> Ok(r.value)
    decreases |es|
  {
    if es == [] then Done(m)
    else
      var next := Step(m, es[0]);
      if next.Throws? then next else Run(next.value, es[1..])
  }

  lemma {:induction false} RunAppend(m: Machine, es: seq<Event>, fs: seq<Event>)
    requires Ok(m)
    ensures Run(m, es + fs)
         == var r := Run(m, es); if r.Done? then Run(r.value, fs) else r
    decreases |es|
  {
    if es == [] {
      assert es + fs == fs;
    } else {
      assert (es + fs)[1..] == es[1..] + fs;
      var next := Step(m, es[0]);
      if next.Done? {
        RunAppend(next.value, es[1..], fs);
      }
    }
  }

  lemma RunOne(m: Machine, e: Event)
    requires Ok(m)
    ensures Run(m, [e]) == Step(m, e)
  {
    var next := Step(m, e);
    if next.Done? {
      assert Run(next.value, [e][1..]) == next;
    }
  }

  /* JSON documents and their events */

  datatype Member = Member(name: Bytes, value: Json)

  datatype Json =
    | JNull
    | JBool(b: bool)
    | JInt(n: IntLiteral)
    | JFloat(f: real)
    | JString(s: Bytes)
    | JArray(items: seq<Json>)
    | JObject(members: seq<Member>)

  /** The parser's events for a document. */
  function Events(j: Json): seq<Event>
    decreases j
  {
    match j
    case JNull => [Null]
    case JBool(b) => [Boolean(b)]
    case JInt(n) => if n >= 0 then [Unsigned(n)] else [Integer(n)]
    case JFloat(f) => [Float(f)]
    case JString(s) => [String(s)]
    case JArray(items) => [StartArray] + ItemEvents(j, 0) + [End]
    case JObject(members) => [StartObject] + MemberEvents(j, 0) + [End]
  }

  function ItemEvents(j: Json, k: nat): seq<Event>
    requires j.JArray? && k <= |j.items|
    decreases j, |j.items| - k
  {
    if k == |j.items| then [] else Events(j.items[k]) + ItemEvents(j, k + 1)
  }

  function MemberEvents(j: Json, k: nat): seq<Event>
    requires j.JObject? && k <= |j.members|
    decreases j, |j.members| - k
  {
    if k == |j.members| then []
    else [Key(j.members[k].name)] + Events(j.members[k].value) + MemberEvents(j, k + 1)
  }

  /** The first thing in a document that is no Nix value, in reading order. */
  ghost function Rejection(j: Json): Option<Error>
    decreases j
  {
    match j
    case JInt(n) => if n > MAX_INT then Some(OutOfRange) else None
    case JString(s) => if HasNull(s) then Some(NullByte) else None
    case JArray(_) => ItemRejection(j, 0)
    case JObject(_) => MemberRejection(j, 0)
    case _ => None
  }

  ghost function ItemRejection(j: Json, k: nat): Option<Error>
    requires j.JArray? && k <= |j.items|
    decreases j, |j.items| - k
  {
    if k == |j.items| then None
    else if Rejection(j.items[k]).Some? then Rejection(j.items[k])
    else ItemRejection(j, k + 1)
  }

  ghost function MemberRejection(j: Json, k: nat): Option<Error>
    requires j.JObject? && k <= |j.members|
    decreases j, |j.members| - k
  {
    if k == |j.members| then None
    else if HasNull(j.members[k].name) then Some(NullByte)
    else if Rejection(j.members[k].value).Some? then Rejection(j.members[k].value)
    else MemberRejection(j, k + 1)
  }

  /** The last of the first `k` members that has a name. */
  ghost function LastMember(members: seq<Member>, k: nat, name: Bytes): (i: Option<nat>)
    requires k <= |members|
    ensures i.Some? ==> i.value < k && members[i.value].name == name
    ensures i.None? ==> forall n :: 0 <= n < k ==> members[n].name != name
  {
    if k == 0 then None
    else if members[k - 1].name == name then Some(k - 1)
    else LastMember(members, k - 1, name)
  }

  /** The cell holds the document: nested values are in cells of their own, at or above `lo`,
      and of members with the same name the last one counts. */
  ghost predicate Holds(heap: seq<Cell>, lo: nat, p: Ptr, j: Json)
    decreases j
  {
    p < |heap| &&
    match j
    case JNull => heap[p] == CNull
    case JBool(b) => heap[p] == CBool(b)
    case JInt(n) => n <= MAX_INT && heap[p] == CInt(n)
    case JFloat(f) => heap[p] == CFloat(f)
    case JString(s) => heap[p] == CString(s)
    case JArray(items) =>
      && heap[p].CList? && |heap[p].items| == |items|
      && forall i :: 0 <= i < |items| ==> heap[p].items[i] >= lo && Holds(heap, lo, heap[p].items[i], items[i])
    case JObject(members) =>
      && heap[p].CAttrs?
      && (forall name :: name in heap[p].attrs <==> LastMember(members, |members|, name).Some?)
      && forall i :: 0 <= i < |members| && LastMember(members, |members|, members[i].name) == Some(i) ==>
           && members[i].name in heap[p].attrs
           && heap[p].attrs[members[i].name] >= lo
           && Holds(heap, lo, heap[p].attrs[members[i].name], members[i].value)
  }

  /** A larger heap that keeps the cell and everything from `lo` on still holds it. */
  lemma {:induction false} HoldsFramed(heap: seq<Cell>, heap': seq<Cell>, lo: nat, lo': nat, p: Ptr, j: Json)
    requires Holds(heap, lo, p, j) && |heap| <= |heap'| && lo' <= lo
    requires heap'[p] == heap[p] && forall q :: lo <= q < |heap| ==> heap'[q] == heap[q]
    ensures Holds(heap', lo', p, j)
    decreases j
  {
    match j {
      case JArray(items) =>
        forall i | 0 <= i < |items|
          ensures Holds(heap', lo', heap[p].items[i], items[i])
        {
          HoldsFramed(heap, heap', lo, lo', heap[p].items[i], items[i]);
        }
      case JObject(members) =>
        forall i | 0 <= i < |members| && LastMember(members, |members|, members[i].name) == Some(i)
          ensures Holds(heap', lo', heap[p].attrs[members[i].name], members[i].value)
        {
          HoldsFramed(heap, heap', lo, lo', heap[p].attrs[members[i].name], members[i].value);
        }
      case _ =>
    }
  }

  /* One complete value */

  /** The machine is waiting for a value: in an object, after its key. */
  predicate Ready(m: Machine) {
    && Ok(m)
    && (m.rs.TopState? || m.rs.ObjectState? ==> m.rs.v.Some?)
    && (m.rs.ListState? ==> m.rs.v.None?)
  }

  /** The cell the next value goes to. */
  function Target(m: Machine): Ptr {
    if m.rs.v.Some? then m.rs.v.value else |m.heap|
  }

  /** The state in which the value has gone to a cell. */
  function After(s: State, p: Ptr): State {
    Added(s.(v := Some(p)))
  }

  /** From `m`, one value has been read: it is in a cell that the state has taken note of, the
      rest of the stack is as it was, and no other old cell has changed. */
  ghost predicate Received(m: Machine, m': Machine, p: Ptr, j: Json) {
    && m'.rs == After(m.rs, p) && Ok(m')
    && (if m.rs.v.Some? then p == m.rs.v.value else p >= |m.heap|)
    && |m.heap| <= |m'.heap|
    && (forall q :: 0 <= q < |m.heap| && q != p ==> m'.heap[q] == m.heap[q])
    && Holds(m'.heap, |m.heap|, p, j)
  }

  lemma PutReceives(m: Machine, cell: Cell, j: Json)
    requires Ready(m) && !j.JArray? && !j.JObject?
    requires Holds([cell], 0, 0, j)
    ensures Received(m, Put(m, cell), Target(m), j)
  {
  }

  /** The state of a list after some of its items. */
  ghost predicate Listed(m: Machine, m': Machine, j: Json, k: nat) {
    && j.JArray? && k <= |j.items| && Ok(m')
    && m'.rs.ListState? && m'.rs.parent == m.rs && m'.rs.v == None && |m'.rs.values| == k
    && m.heap <= m'.heap
    && forall i :: 0 <= i < k ==> m'.rs.values[i] >= |m.heap| && Holds(m'.heap, |m.heap|, m'.rs.values[i], j.items[i])
  }

  lemma ListNext(m: Machine, m1: Machine, m2: Machine, p: Ptr, j: Json, k: nat)
    requires Listed(m, m1, j, k) && k < |j.items| && Received(m1, m2, p, j.items[k])
    ensures Listed(m, m2, j, k + 1)
  {
    assert forall q :: 0 <= q < |m1.heap| ==> m2.heap[q] == m1.heap[q];
    assert m1.heap <= m2.heap;
    forall i | 0 <= i < k
      ensures Holds(m2.heap, |m.heap|, m2.rs.values[i], j.items[i])
    {
      HoldsFramed(m1.heap, m2.heap, |m.heap|, |m.heap|, m1.rs.values[i], j.items[i]);
    }
    HoldsFramed(m2.heap, m2.heap, |m1.heap|, |m.heap|, p, j.items[k]);
  }

  /** A member, when it is the last of its name among the first `k`, is held in a cell. */
  ghost predicate Kept(heap: seq<Cell>, lo: nat, attrs: map<Bytes, Ptr>, members: seq<Member>, k: nat, i: nat)
    requires i < k <= |members|
  {
    var name := members[i].name;
    LastMember(members, k, name) == Some(i) ==>
      name in attrs && attrs[name] >= lo && Holds(heap, lo, attrs[name], members[i].value)
  }

  /** The attributes noted are those named by the first `k` members. */
  ghost predicate NamesOf(attrs: map<Bytes, Ptr>, members: seq<Member>, k: nat)
    requires k <= |members|
  {
    forall name :: name in attrs <==> LastMember(members, k, name).Some?
  }

  /** The state of an object after some of its members. */
  ghost predicate Keyed(m: Machine, m': Machine, j: Json, k: nat) {
    && j.JObject? && k <= |j.members| && Ok(m')
    && m'.rs.ObjectState? && m'.rs.parent == m.rs && m'.rs.v == None
    && m.heap <= m'.heap
    && NamesOf(m'.rs.attrs, j.members, k)
    && forall i: nat :: i < k ==> Kept(m'.heap, |m.heap|, m'.rs.attrs, j.members, k, i)
  }

  lemma KeptNext(heap: seq<Cell>, heap': seq<Cell>, lo: nat, attrs: map<Bytes, Ptr>, p: Ptr,
                 members: seq<Member>, k: nat, i: nat)
    requires i < k < |members| && heap <= heap' && lo <= |heap| && Kept(heap, lo, attrs, members, k, i)
    ensures Kept(heap', lo, attrs[members[k].name := p], members, k + 1, i)
  {
    var name := members[i].name;
    if LastMember(members, k + 1, name) == Some(i) {
      HoldsFramed(heap, heap', lo, lo, attrs[name], members[i].value);
    }
  }

  lemma KeyedNext(m: Machine, m1: Machine, a: Machine, m2: Machine, p: Ptr, j: Json, k: nat)
    requires Keyed(m, m1, j, k) && k < |j.members| && !HasNull(j.members[k].name)
    requires Step(m1, Key(j.members[k].name)) == Done(a) && Received(a, m2, p, j.members[k].value)
    ensures Keyed(m, m2, j, k + 1)
  {
    hide Holds, Kept;
    var name := j.members[k].name;
    assert p == |m1.heap| && a.heap == m1.heap + [Unset];
    assert m1.heap <= m2.heap;
    assert m2.rs.attrs == m1.rs.attrs[name := p];
    var next := k + 1;
    forall i: nat | i < k
      ensures Kept(m2.heap, |m.heap|, m2.rs.attrs, j.members, next, i)
    {
      KeptNext(m1.heap, m2.heap, |m.heap|, m1.rs.attrs, p, j.members, k, i);
    }
    HoldsFramed(m2.heap, m2.heap, |a.heap|, |m.heap|, p, j.members[k].value);
    KeptNew(m2.heap, |m.heap|, m2.rs.attrs, j.members, k);
  }

  lemma KeptNew(heap: seq<Cell>, lo: nat, attrs: map<Bytes, Ptr>, members: seq<Member>, k: nat)
    requires k < |members| && members[k].name in attrs && attrs[members[k].name] >= lo
    requires Holds(heap, lo, attrs[members[k].name], members[k].value)
    ensures Kept(heap, lo, attrs, members, k + 1, k)
  {
  }

  /** Closing a list or an object hands its cell to the state below. */
  lemma CloseList(m: Machine, m1: Machine, j: Json)
    requires Ready(m) && j.JArray? && Listed(m, m1, j, |j.items|)
    ensures Step(m1, End).Done? && exists p :: Received(m, Step(m1, End).value, p, j)
  {
    var below := Machine(m.rs, m1.heap);
    var m2 := Put(below, CList(m1.rs.values));
    var p := Target(below);
    forall i | 0 <= i < |j.items|
      ensures Holds(m2.heap, |m.heap|, m1.rs.values[i], j.items[i])
    {
      HoldsFramed(m1.heap, m2.heap, |m.heap|, |m.heap|, m1.rs.values[i], j.items[i]);
    }
    assert Received(m, m2, p, j);
  }

  lemma CloseObject(m: Machine, m1: Machine, j: Json)
    requires Ready(m) && j.JObject? && Keyed(m, m1, j, |j.members|)
    ensures Step(m1, End).Done? && exists p :: Received(m, Step(m1, End).value, p, j)
  {
    hide Holds, Kept, NamesOf;
    var below := Machine(m.rs, m1.heap);
    var m2 := Put(below, CAttrs(m1.rs.attrs));
    var p := Target(below);
    forall i: nat | i < |j.members|
      ensures Kept(m2.heap, |m.heap|, m1.rs.attrs, j.members, |j.members|, i)
    {
      KeptFramed(m1.heap, m2.heap, |m.heap|, m1.rs.attrs, j.members, i);
    }
    ObjectHeld(m2.heap, |m.heap|, p, m1.rs.attrs, j);
    assert Received(m, m2, p, j);
  }

  lemma KeptFramed(heap: seq<Cell>, heap': seq<Cell>, lo: nat, attrs: map<Bytes, Ptr>, members: seq<Member>, i: nat)
    requires i < |members| && Kept(heap, lo, attrs, members, |members|, i)
    requires |heap| <= |heap'| && forall q :: lo <= q < |heap| ==> heap'[q] == heap[q]
    ensures Kept(heap', lo, attrs, members, |members|, i)
  {
    var name := members[i].name;
    if LastMember(members, |members|, name) == Some(i) {
      HoldsFramed(heap, heap', lo, lo, attrs[name], members[i].value);
    }
  }

  lemma ObjectHeld(heap: seq<Cell>, lo: nat, p: Ptr, attrs: map<Bytes, Ptr>, j: Json)
    requires j.JObject? && p < |heap| && heap[p] == CAttrs(attrs) && NamesOf(attrs, j.members, |j.members|)
    requires forall i: nat :: i < |j.members| ==> Kept(heap, lo, attrs, j.members, |j.members|, i)
    ensures Holds(heap, lo, p, j)
  {
    forall i | 0 <= i < |j.members| && LastMember(j.members, |j.members|, j.members[i].name) == Some(i)
      ensures j.members[i].name in attrs && attrs[j.members[i].name] >= lo
      ensures Holds(heap, lo, attrs[j.members[i].name], j.members[i].value)
    {
      assert Kept(heap, lo, attrs, j.members, |j.members|, i);
    }
  }

  /** Reading the events of a document: either it is received, and the stack is restored, or
      the machine throws what rejects it. */
  ghost predicate Reads(m: Machine, r: Outcome<Machine, Error>, j: Json) {
    if Rejection(j).Some? then r == Throws(Rejection(j).value)
    else r.Done? && exists p :: Received(m, r.value, p, j)
  }

  lemma {:induction false} RunValue(m: Machine, j: Json)
    requires Ready(m)
    ensures Reads(m, Run(m, Events(j)), j)
    decreases j
  {
    match j {
      case JArray(items) =>
        var m0 := Machine(ListState(m.rs, None, []), m.heap);
        RunOne(m, StartArray);
        RunAppend(m, [StartArray], ItemEvents(j, 0));
        RunAppend(m, [StartArray] + ItemEvents(j, 0), [End]);
        RunItems(m, m0, j, 0);
        var r := Run(m0, ItemEvents(j, 0));
        if r.Done? {
          RunOne(r.value, End);
          CloseList(m, r.value, j);
        }
      case JObject(members) =>
        var m0 := Machine(ObjectState(m.rs, None, map[]), m.heap);
        RunOne(m, StartObject);
        RunAppend(m, [StartObject], MemberEvents(j, 0));
        RunAppend(m, [StartObject] + MemberEvents(j, 0), [End]);
        RunMembers(m, m0, j, 0);
        var r := Run(m0, MemberEvents(j, 0));
        if r.Done? {
          RunOne(r.value, End);
          CloseObject(m, r.value, j);
        }
      case _ =>
        RunScalar(m, j);
    }
  }

  lemma RunScalar(m: Machine, j: Json)
    requires Ready(m) && !j.JArray? && !j.JObject?
    ensures Reads(m, Run(m, Events(j)), j)
  {
    RunOne(m, Events(j)[0]);
    assert Events(j) == [Events(j)[0]];
    if Rejection(j).None? {
      var cell := match j
        case JBool(b) => CBool(b)
        case JInt(n) => CInt(n)
        case JFloat(f) => CFloat(f)
        case JString(s) => CString(s)
        case _ => CNull;
      PutReceives(m, cell, j);
    }
  }

  lemma {:induction false} RunItems(m: Machine, m1: Machine, j: Json, k: nat)
    requires Ready(m) && Listed(m, m1, j, k)
    ensures ItemRejection(j, k).Some? ==> Run(m1, ItemEvents(j, k)) == Throws(ItemRejection(j, k).value)
    ensures ItemRejection(j, k).None? ==>
              Run(m1, ItemEvents(j, k)).Done? && Listed(m, Run(m1, ItemEvents(j, k)).value, j, |j.items|)
    decreases j, |j.items| - k
  {
    if k < |j.items| {
      var item := j.items[k];
      RunAppend(m1, Events(item), ItemEvents(j, k + 1));
      RunValue(m1, item);
      if Rejection(item).None? {
        var m2 := Run(m1, Events(item)).value;
        var p :| Received(m1, m2, p, item);
        ListNext(m, m1, m2, p, j, k);
        RunItems(m, m2, j, k + 1);
      }
    }
  }

  lemma {:induction false} RunMembers(m: Machine, m1: Machine, j: Json, k: nat)
    requires Ready(m) && Keyed(m, m1, j, k)
    ensures MemberRejection(j, k).Some? ==> Run(m1, MemberEvents(j, k)) == Throws(MemberRejection(j, k).value)
    ensures MemberRejection(j, k).None? ==>
              Run(m1, MemberEvents(j, k)).Done? && Keyed(m, Run(m1, MemberEvents(j, k)).value, j, |j.members|)
    decreases j, |j.members| - k
  {
    if k < |j.members| {
      hide Keyed, Received;
      var member := j.members[k];
      var key := Key(member.name);
      KeyedReady(m, m1, j, k);
      RunOne(m1, key);
      RunAppend(m1, [key], Events(member.value));
      RunAppend(m1, [key] + Events(member.value), MemberEvents(j, k + 1));
      if !HasNull(member.name) {
        var a := Step(m1, key).value;
        RunValue(a, member.value);
        if Rejection(member.value).None? {
          var m2 := Run(a, Events(member.value)).value;
          var p :| Received(a, m2, p, member.value);
          KeyedNext(m, m1, a, m2, p, j, k);
          RunMembers(m, m2, j, k + 1);
        }
      }
    }
  }

  /** An object between members takes a key. */
  lemma KeyedReady(m: Machine, m1: Machine, j: Json, k: nat)
    requires Keyed(m, m1, j, k) && k < |j.members|
    ensures Ok(m1)
    ensures var name := j.members[k].name;
      if HasNull(name) then Step(m1, Key(name)) == Throws(NullByte)
      else Step(m1, Key(name)).Done? && Ready(Step(m1, Key(name)).value)
  {
  }

  /* The parser object */

  /** `JSONSax`: the state stack, and the heap its values are in. */
  class Parser {
    var rs: State
    var heap: seq<Cell>

    ghost function Snapshot(): Machine
      reads this
    {
      Machine(rs, heap)
    }

    /** A parser whose result goes to cell 0. */
    constructor ()
      ensures rs == TopState(Some(0)) && heap == [Unset]
    {
      rs, heap := TopState(Some(0)), [Unset];
    }

    /** `JSONState::value`. */
    method Value() returns (p: Ptr)
      requires Ok(Snapshot())
      modifies this
      ensures Snapshot() == Alloc(old(Snapshot())) && rs.v == Some(p)
    {
      if rs.v.None? {
        rs := rs.(v := Some(|heap|));
        heap := heap + [Unset];
      }
      p := rs.v.value;
    }

    /** `JSONState::add`. */
    method Add()
      requires rs.v.Some?
      modifies `rs
      ensures rs == Added(old(rs))
    {
      match rs {
        case TopState(_) =>
        case ObjectState(parent, _, attrs) =>
          rs := ObjectState(parent, None, attrs);
        case ListState(parent, v, values) =>
          rs := ListState(parent, None, values + [v.value]);
      }
    }

    /** Write a value and note that it is complete. */
    method Complete(cell: Cell)
      requires Ok(Snapshot())
      modifies this
      ensures Snapshot() == Put(old(Snapshot()), cell)
    {
      var p := Value();
      heap := heap[p := cell];
      Add();
    }

    /** `key`. */
    method SetKey(name: Bytes) returns (error: Option<Error>)
      requires Ok(Snapshot())
      modifies this
      ensures Effect(error) == Step(old(Snapshot()), Key(name))
    {
      if !rs.ObjectState? {
        return Some(NotAnObject);
      }
      if HasNull(name) {
        return Some(NullByte);
      }
      var p := Value();
      rs := rs.(attrs := rs.attrs[name := p]);
      error := None;
    }

    /** `end_object` and `end_array`: resolve the state into its parent. */
    method Close() returns (error: Option<Error>)
      requires Ok(Snapshot())
      modifies this
      ensures Effect(error) == Step(old(Snapshot()), End)
    {
      match rs {
        case TopState(_) =>
          return Some(CloseTopLevel);
        case ObjectState(parent, _, attrs) =>
          rs := parent;
          Complete(CAttrs(attrs));
        case ListState(parent, _, values) =>
          rs := parent;
          Complete(CList(values));
      }
      error := None;
    }

    /** What a call has done: the machine it leaves, or what it throws. */
    ghost function Effect(error: Option<Error>): Outcome<Machine, Error>
      reads this
    {
      if error.Some? then Throws(error.value) else Done(Snapshot())
    }

    /** The callback of an event. */
    method Handle(e: Event) returns (error: Option<Error>)
      requires Ok(Snapshot())
      modifies this
      ensures Effect(error) == Step(old(Snapshot()), e)
    {
      error := None;
      match e {
        case Null =>
          Complete(CNull);
        case Boolean(b) =>
          Complete(CBool(b));
        case Integer(n) =>
          Complete(CInt(n));
        case Unsigned(u) =>
          if u > MAX_INT {
            return Some(OutOfRange);
          }
          Complete(CInt(u));
        case Float(f) =>
          Complete(CFloat(f));
        case String(s) =>
          if HasNull(s) {
            return Some(NullByte);
          }
          Complete(CString(s));
        case StartObject =>
          rs := ObjectState(rs, None, map[]);
        case StartArray =>
          rs := ListState(rs, None, []);
        case Key(name) =>
          error := SetKey(name);
        case End =>
          error := Close();
      }
    }

    /** Feed a whole document to a new parser: it is rejected exactly when something in it is
        no Nix value, and otherwise it is held in the result cell, with the stack back at the
        top. */
    method Parse(j: Json) returns (error: Option<Error>)
      requires rs == TopState(Some(0)) && heap == [Unset]
      modifies this
      ensures error == Rejection(j)
      ensures error.None? ==> rs == TopState(Some(0)) && Holds(heap, 1, 0, j)
    {
      var es := Events(j);
      ghost var m := Snapshot();
      RunValue(m, j);
      for k := 0 to |es|
        invariant Ok(Snapshot()) && Run(m, es) == Run(Snapshot(), es[k..])
      {
        assert es[k..][1..] == es[k + 1..];
        error := Handle(es[k]);
        if error.Some? {
          return;
        }
      }
      error := None;
    }
  }
}
