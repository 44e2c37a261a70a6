/** Values to JSON, and back through the parser. */
module JsonPrinter {
  import opened Common
  import opened Outcomes
  import Ordering
  import opened JsonSax

  /** An element of a string context. */
  type Item = nat

  datatype Text = Text(chars: Bytes, context: set<Item>)

  datatype PrintError = CannotConvert | Thrown(code: nat)

  datatype Printed<+T> = Out(value: T) | Fails(error: PrintError)

  /** What a rendering gives, and the context it adds, whether or not it fails. */
  datatype Rendering<+T> = Rendering(out: Printed<T>, context: set<Item>)

  datatype Attribute = Attribute(name: Bytes, value: Tree)

  /** Values as the printer meets them. A thunk carries what forcing it gives; `asString` is
      what calling `__toString` gives, when the set has it; a path carries what it prints as,
      which for a copied path is a store path; an external value prints itself. */
  datatype Tree =
    | Thunk(value: Tree)
    | Broken(code: nat)
    | Function
    | NullTree
    | BoolTree(b: bool)
    | IntTree(n: Int64)
    | FloatTree(f: real)
    | StringTree(text: Text)
    | PathTree(printed: Rendering<Bytes>)
    | ExternalTree(json: Rendering<Json>)
    | ListTree(items: seq<Tree>)
    | SetTree(attrs: seq<Attribute>, asString: Rendering<Bytes>)

  const TO_STRING: Bytes := [95, 95, 116, 111, 83, 116, 114, 105, 110, 103]
  const OUT_PATH: Bytes := [111, 117, 116, 80, 97, 116, 104]

  function IndexOf(attrs: seq<Attribute>, k: nat, name: Bytes): (i: Option<nat>)
    ensures i.Some? ==> k <= i.value < |attrs| && attrs[i.value].name == name
    ensures i.None? ==> forall j :: k <= j < |attrs| ==> attrs[j].name != name
    decreases |attrs| - k
  {
    if k >= |attrs| then None
    else if attrs[k].name == name then Some(k)
    else IndexOf(attrs, k + 1, name)
  }

  /* The lexicographic order of attributes */

  /** Put an attribute, given by its index, in its place. */
  function InsertIndex(attrs: seq<Attribute>, order: seq<nat>, i: nat): (r: seq<nat>)
    requires i < |attrs| && forall k :: 0 <= k < |order| ==> order[k] < |attrs|
    ensures |r| == |order| + 1 && forall k :: 0 <= k < |r| ==> r[k] == i || r[k] in order
  {
    var n := |order|;
    if n == 0 || Ordering.BytesLess(attrs[order[n - 1]].name, attrs[i].name) then order + [i]
    else InsertIndex(attrs, order[..n - 1], i) + [order[n - 1]]
  }

  /** `lexicographicOrder`: the indices of the first `n` attributes in the order of their names. */
  function LexOrder(attrs: seq<Attribute>, n: nat): (r: seq<nat>)
    requires n <= |attrs|
    ensures |r| == n && forall k :: 0 <= k < |r| ==> r[k] < n
  {
    if n == 0 then [] else InsertIndex(attrs, LexOrder(attrs, n - 1), n - 1)
  }

  ghost predicate DistinctAttrs(attrs: seq<Attribute>) {
    forall i, j :: 0 <= i < j < |attrs| ==> attrs[i].name != attrs[j].name
  }

  ghost predicate InOrder(attrs: seq<Attribute>, order: seq<nat>) {
    && (forall k :: 0 <= k < |order| ==> order[k] < |attrs|)
    && forall k, l :: 0 <= k < l < |order| ==> Ordering.BytesLess(attrs[order[k]].name, attrs[order[l]].name)
  }

  lemma {:induction false} InsertIndexOrdered(attrs: seq<Attribute>, order: seq<nat>, i: nat)
    requires DistinctAttrs(attrs) && i < |attrs| && InOrder(attrs, order) && i !in order
    ensures InOrder(attrs, InsertIndex(attrs, order, i))
    ensures i in InsertIndex(attrs, order, i) && forall x: nat :: x in order ==> x in InsertIndex(attrs, order, i)
  {
    var n := |order|;
    if n > 0 {
      var last := order[n - 1];
      if Ordering.BytesLess(attrs[last].name, attrs[i].name) {
        AppendOrdered(attrs, order, i);
      } else {
        var before := order[..n - 1];
        InOrderPrefix(attrs, order, i);
        hide InOrder, DistinctAttrs;
        InsertIndexOrdered(attrs, before, i);
        var r := InsertIndex(attrs, before, i);
        forall k | 0 <= k < |r|
          ensures Ordering.BytesLess(attrs[r[k]].name, attrs[last].name)
        {
          assert r[k] == i || r[k] in before;
        }
        InOrderPush(attrs, r, last);
        KeptByPush(before, r, last, i);
        assert order == before + [last];
      }
    }
  }

  /** All but the last are in order and before the last, and so is a new attribute that is not
      after the last. */
  lemma InOrderPrefix(attrs: seq<Attribute>, order: seq<nat>, i: nat)
    requires DistinctAttrs(attrs) && i < |attrs| && InOrder(attrs, order) && i !in order && order != []
    requires !Ordering.BytesLess(attrs[order[|order| - 1]].name, attrs[i].name)
    ensures var before, last := order[..|order| - 1], order[|order| - 1];
      && InOrder(attrs, before) && i !in before && Ordering.BytesLess(attrs[i].name, attrs[last].name)
      && forall x: nat :: x in before ==> x < |attrs| && Ordering.BytesLess(attrs[x].name, attrs[last].name)
  {
    var last := order[|order| - 1];
    assert last in order;
    Ordering.BytesTotal(attrs[last].name, attrs[i].name);
  }

  lemma AppendOrdered(attrs: seq<Attribute>, order: seq<nat>, i: nat)
    requires i < |attrs| && InOrder(attrs, order) && order != []
    requires Ordering.BytesLess(attrs[order[|order| - 1]].name, attrs[i].name)
    ensures InOrder(attrs, order + [i])
  {
    forall k | 0 <= k < |order|
      ensures Ordering.BytesLess(attrs[order[k]].name, attrs[i].name)
    {
      if k < |order| - 1 {
        Ordering.BytesTransitive(attrs[order[k]].name, attrs[order[|order| - 1]].name, attrs[i].name);
      }
    }
    InOrderPush(attrs, order, i);
  }

  lemma InOrderPush(attrs: seq<Attribute>, order: seq<nat>, i: nat)
    requires i < |attrs| && InOrder(attrs, order)
    requires forall k :: 0 <= k < |order| ==> Ordering.BytesLess(attrs[order[k]].name, attrs[i].name)
    ensures InOrder(attrs, order + [i])
  {
  }

  lemma KeptByPush(before: seq<nat>, r: seq<nat>, last: nat, i: nat)
    requires i in r && forall x: nat :: x in before ==> x in r
    ensures i in r + [last] && forall x: nat :: x in before + [last] ==> x in r + [last]
  {
  }

  lemma NothingInOrder(attrs: seq<Attribute>)
    ensures InOrder(attrs, [])
  {
  }

  /** The order lists every attribute once, by strictly increasing name. */
  lemma {:induction false} LexOrderOk(attrs: seq<Attribute>, n: nat)
    requires DistinctAttrs(attrs) && n <= |attrs|
    ensures InOrder(attrs, LexOrder(attrs, n))
    ensures forall i: nat :: i < n ==> i in LexOrder(attrs, n)
  {
    hide InsertIndex, InOrder, DistinctAttrs;
    if n == 0 {
      NothingInOrder(attrs);
    } else {
      LexOrderOk(attrs, n - 1);
      assert n - 1 !in LexOrder(attrs, n - 1);
      InsertIndexOrdered(attrs, LexOrder(attrs, n - 1), n - 1);
    }
  }

  /* What is printed */

  /** The document a value prints as, or the first error, and the contexts of what has been
      printed up to there. */
  ghost function PrintOf(v: Tree, strict: bool): Rendering<Json>
    decreases v
  {
    match v
    case Thunk(w) => if strict then PrintOf(w, strict) else Rendering(Fails(CannotConvert), {})
    case Broken(code) => Rendering(Fails(if strict then Thrown(code) else CannotConvert), {})
    case Function => Rendering(Fails(CannotConvert), {})
    case NullTree => Rendering(Out(JNull), {})
    case BoolTree(b) => Rendering(Out(JBool(b)), {})
    case IntTree(n) => Rendering(Out(JInt(n)), {})
    case FloatTree(f) => Rendering(Out(JFloat(f)), {})
    case StringTree(text) => Rendering(Out(JString(text.chars)), text.context)
    case PathTree(printed) => AsString(printed)
    case ExternalTree(json) => json
    case ListTree(items) => AsArray(ItemsOf(v, strict, |items|))
    case SetTree(attrs, asString) =>
      if IndexOf(attrs, 0, TO_STRING).Some? then AsString(asString)
      else
        var i := IndexOf(attrs, 0, OUT_PATH);
        if i.Some? then PrintOf(attrs[i.value].value, strict) else AsObject(MembersOf(v, strict, |attrs|))
  }

  ghost function JsonOf(v: Tree, strict: bool): Printed<Json> {
    PrintOf(v, strict).out
  }

  function AsString(r: Rendering<Bytes>): Rendering<Json> {
    Rendering(if r.out.Fails? then Fails(r.out.error) else Out(JString(r.out.value)), r.context)
  }

  function AsArray(r: Rendering<seq<Json>>): Rendering<Json> {
    Rendering(if r.out.Fails? then Fails(r.out.error) else Out(JArray(r.out.value)), r.context)
  }

  function AsObject(r: Rendering<seq<Member>>): Rendering<Json> {
    Rendering(if r.out.Fails? then Fails(r.out.error) else Out(JObject(r.out.value)), r.context)
  }

  /** One more value after those printed so far, unless they failed. */
  function Snoc<T>(before: Rendering<seq<T>>, next: Rendering<T>): Rendering<seq<T>> {
    if before.out.Fails? then before
    else
      Rendering(if next.out.Fails? then Fails(next.out.error) else Out(before.out.value + [next.out.value]),
                before.context + next.context)
  }

  function Named(name: Bytes, r: Rendering<Json>): Rendering<Member> {
    Rendering(if r.out.Fails? then Fails(r.out.error) else Out(Member(name, r.out.value)), r.context)
  }

  ghost function ItemsOf(v: Tree, strict: bool, k: nat): Rendering<seq<Json>>
    requires v.ListTree? && k <= |v.items|
    decreases v, k
  {
    if k == 0 then Rendering(Out([]), {})
    else Snoc(ItemsOf(v, strict, k - 1), PrintOf(v.items[k - 1], strict))
  }

  /** The attribute that is printed `k`th. */
  function PrintedAt(attrs: seq<Attribute>, k: nat): (a: Attribute)
    requires k < |attrs|
    ensures a in attrs
  {
    attrs[LexOrder(attrs, |attrs|)[k]]
  }

  /** The first `k` attributes in lexicographic order. */
  ghost function MembersOf(v: Tree, strict: bool, k: nat): Rendering<seq<Member>>
    requires v.SetTree? && k <= |v.attrs|
    decreases v, k
  {
    if k == 0 then Rendering(Out([]), {})
    else
      var a := v.attrs[LexOrder(v.attrs, |v.attrs|)[k - 1]];
      Snoc(MembersOf(v, strict, k - 1), Named(a.name, PrintOf(a.value, strict)))
  }

  /** `printValueAsJSON`: the JSON of a value or the first error, with the contexts of what has
      been printed added. */
  method PrintValue(v: Tree, strict: bool, context: set<Item>) returns (r: Printed<Json>, context': set<Item>)
    ensures r == PrintOf(v, strict).out && context' == context + PrintOf(v, strict).context
    decreases v, 1
  {
    context' := context;
    match v {
      case Thunk(w) =>
        if strict {
          r, context' := PrintValue(w, strict, context);
        } else {
          r := Fails(CannotConvert);
        }
      case Broken(code) =>
        r := Fails(if strict then Thrown(code) else CannotConvert);
      case Function =>
        r := Fails(CannotConvert);
      case NullTree =>
        r := Out(JNull);
      case BoolTree(b) =>
        r := Out(JBool(b));
      case IntTree(n) =>
        r := Out(JInt(n));
      case FloatTree(f) =>
        r := Out(JFloat(f));
      case StringTree(text) =>
        r, context' := Out(JString(text.chars)), context + text.context;
      case PathTree(printed) =>
        r, context' := AsString(printed).out, context + printed.context;
      case ExternalTree(json) =>
        r, context' := json.out, context + json.context;
      case ListTree(items) =>
        r, context' := PrintList(v, strict, context);
      case SetTree(attrs, asString) =>
        if IndexOf(attrs, 0, TO_STRING).Some? {
          r, context' := AsString(asString).out, context + asString.context;
        } else {
          var i := IndexOf(attrs, 0, OUT_PATH);
          if i.Some? {
            r, context' := PrintValue(attrs[i.value].value, strict, context);
          } else {
            r, context' := PrintSet(v, strict, context);
          }
        }
    }
  }

  method PrintList(v: Tree, strict: bool, context: set<Item>) returns (r: Printed<Json>, context': set<Item>)
    requires v.ListTree?
    ensures r == PrintOf(v, strict).out && context' == context + PrintOf(v, strict).context
    decreases v, 0
  {
    hide PrintOf;
    var out := [];
    context' := context;
    ListPrint(v, strict);
    for k := 0 to |v.items|
      invariant ItemsOf(v, strict, k).out == Out(out) && context' == context + ItemsOf(v, strict, k).context
    {
      var j;
      j, context' := PrintValue(v.items[k], strict, context');
      if j.Fails? {
        ItemsFail(v, strict, k + 1, |v.items|);
        return Fails(j.error), context';
      }
      out := out + [j.value];
    }
    r := Out(JArray(out));
  }

  lemma ListPrint(v: Tree, strict: bool)
    requires v.ListTree?
    ensures PrintOf(v, strict) == AsArray(ItemsOf(v, strict, |v.items|))
  {
  }

  lemma {:induction false} ItemsFail(v: Tree, strict: bool, k: nat, n: nat)
    requires v.ListTree? && k <= n <= |v.items| && ItemsOf(v, strict, k).out.Fails?
    ensures ItemsOf(v, strict, n) == ItemsOf(v, strict, k)
    decreases n
  {
    if k < n {
      ItemsFail(v, strict, k, n - 1);
    }
  }

  method PrintSet(v: Tree, strict: bool, context: set<Item>) returns (r: Printed<Json>, context': set<Item>)
    requires v.SetTree?
    requires IndexOf(v.attrs, 0, TO_STRING).None? && IndexOf(v.attrs, 0, OUT_PATH).None?
    ensures r == PrintOf(v, strict).out && context' == context + PrintOf(v, strict).context
    decreases v, 0
  {
    hide PrintOf, LexOrder;
    var order := LexOrder(v.attrs, |v.attrs|);
    var out := [];
    context' := context;
    SetPrint(v, strict);
    for k := 0 to |v.attrs|
      invariant MembersOf(v, strict, k).out == Out(out) && context' == context + MembersOf(v, strict, k).context
    {
      var a := v.attrs[order[k]];
      var j;
      j, context' := PrintValue(a.value, strict, context');
      if j.Fails? {
        MembersFail(v, strict, k + 1, |v.attrs|);
        return Fails(j.error), context';
      }
      out := out + [Member(a.name, j.value)];
    }
    r := Out(JObject(out));
  }

  lemma SetPrint(v: Tree, strict: bool)
    requires v.SetTree?
    requires IndexOf(v.attrs, 0, TO_STRING).None? && IndexOf(v.attrs, 0, OUT_PATH).None?
    ensures PrintOf(v, strict) == AsObject(MembersOf(v, strict, |v.attrs|))
  {
  }

  lemma {:induction false} MembersFail(v: Tree, strict: bool, k: nat, n: nat)
    requires v.SetTree? && k <= n <= |v.attrs| && MembersOf(v, strict, k).out.Fails?
    ensures MembersOf(v, strict, n) == MembersOf(v, strict, k)
    decreases n
  {
    if k < n {
      MembersFail(v, strict, k, n - 1);
    }
  }

  /* Printing and parsing */

  /** Trees of null, booleans, 64-bit integers, strings, lists and sets without `outPath` and
      `__toString`; Nix strings and names have no null bytes. */
  ghost predicate IsData(v: Tree)
    decreases v
  {
    match v
    case Thunk(w) => IsData(w)
    case NullTree => true
    case BoolTree(_) => true
    case IntTree(_) => true
    case StringTree(text) => !HasNull(text.chars)
    case ListTree(items) => forall i :: 0 <= i < |items| ==> IsData(items[i])
    case SetTree(attrs, _) =>
      && DistinctAttrs(attrs)
      && forall i :: 0 <= i < |attrs| ==>
           && !HasNull(attrs[i].name) && attrs[i].name != OUT_PATH && attrs[i].name != TO_STRING
           && IsData(attrs[i].value)
    case _ => false
  }

  /** The cell holds the value: the same scalars, lists of the same length, sets with the same
      names, and the same values inside. Contexts are not part of JSON. */
  ghost predicate Rebuilt(heap: seq<Cell>, p: Ptr, v: Tree)
    decreases v
  {
    p < |heap| &&
    match v
    case Thunk(w) => Rebuilt(heap, p, w)
    case NullTree => heap[p] == CNull
    case BoolTree(b) => heap[p] == CBool(b)
    case IntTree(n) => heap[p] == CInt(n)
    case StringTree(text) => heap[p] == CString(text.chars)
    case ListTree(items) =>
      && heap[p].CList? && |heap[p].items| == |items|
      && forall i :: 0 <= i < |items| ==> Rebuilt(heap, heap[p].items[i], items[i])
    case SetTree(attrs, _) =>
      && heap[p].CAttrs?
      && (forall name :: name in heap[p].attrs <==> IndexOf(attrs, 0, name).Some?)
      && forall i :: 0 <= i < |attrs| ==>
           attrs[i].name in heap[p].attrs && Rebuilt(heap, heap[p].attrs[attrs[i].name], attrs[i].value)
    case _ => false
  }

  lemma {:induction false} ItemsPrinted(v: Tree, k: nat)
    requires v.ListTree? && IsData(v) && k <= |v.items|
    requires forall i :: 0 <= i < k ==> JsonOf(v.items[i], true).Out?
    ensures ItemsOf(v, true, k).out.Out? && |ItemsOf(v, true, k).out.value| == k
    ensures forall i :: 0 <= i < k ==> ItemsOf(v, true, k).out.value[i] == JsonOf(v.items[i], true).value
    decreases k
  {
    if k > 0 {
      ItemsPrinted(v, k - 1);
    }
  }

  lemma {:induction false} MembersPrinted(v: Tree, k: nat)
    requires v.SetTree? && IsData(v) && k <= |v.attrs|
    requires forall i :: 0 <= i < |v.attrs| ==> JsonOf(v.attrs[i].value, true).Out?
    ensures MembersOf(v, true, k).out.Out? && |MembersOf(v, true, k).out.value| == k
    ensures forall i :: 0 <= i < k ==>
              MembersOf(v, true, k).out.value[i] ==
                Member(PrintedAt(v.attrs, i).name, JsonOf(PrintedAt(v.attrs, i).value, true).value)
    decreases k
  {
    if k > 0 {
      MembersPrinted(v, k - 1);
    }
  }

  lemma {:induction false} NoItemRejected(j: Json, k: nat)
    requires j.JArray? && k <= |j.items| && forall i :: k <= i < |j.items| ==> Rejection(j.items[i]).None?
    ensures ItemRejection(j, k).None?
    decreases |j.items| - k
  {
    if k < |j.items| {
      NoItemRejected(j, k + 1);
    }
  }

  lemma {:induction false} NoMemberRejected(j: Json, k: nat)
    requires j.JObject? && k <= |j.members|
    requires forall i :: k <= i < |j.members| ==>
               !HasNull(j.members[i].name) && Rejection(j.members[i].value).None?
    ensures MemberRejection(j, k).None?
    decreases |j.members| - k
  {
    if k < |j.members| {
      NoMemberRejected(j, k + 1);
    }
  }

  /** Nothing is printed for the special attributes when they are missing. */
  lemma NotSpecial(v: Tree)
    requires v.SetTree? && IsData(v)
    ensures IndexOf(v.attrs, 0, TO_STRING).None? && IndexOf(v.attrs, 0, OUT_PATH).None?
  {
  }

  /** Data is printed, and what is printed is accepted. */
  lemma {:induction false} DataIsPrinted(v: Tree)
    requires IsData(v)
    ensures JsonOf(v, true).Out? && Rejection(JsonOf(v, true).value).None?
    decreases v
  {
    match v {
      case Thunk(w) =>
        DataIsPrinted(w);
      case ListTree(items) =>
        forall i | 0 <= i < |items|
          ensures JsonOf(items[i], true).Out? && Rejection(JsonOf(items[i], true).value).None?
        {
          DataIsPrinted(items[i]);
        }
        ItemsPrinted(v, |items|);
        NoItemRejected(JsonOf(v, true).value, 0);
      case SetTree(attrs, _) =>
        forall i | 0 <= i < |attrs|
          ensures JsonOf(attrs[i].value, true).Out? && Rejection(JsonOf(attrs[i].value, true).value).None?
        {
          DataIsPrinted(attrs[i].value);
        }
        SetAccepted(v);
      case _ =>
    }
  }

  lemma SetAccepted(v: Tree)
    requires v.SetTree? && IsData(v)
    requires forall i :: 0 <= i < |v.attrs| ==>
               JsonOf(v.attrs[i].value, true).Out? && Rejection(JsonOf(v.attrs[i].value, true).value).None?
    ensures MembersOf(v, true, |v.attrs|).out.Out?
    ensures JsonOf(v, true) == Out(JObject(MembersOf(v, true, |v.attrs|).out.value))
    ensures Rejection(JsonOf(v, true).value).None?
  {
    NotSpecial(v);
    MembersPrinted(v, |v.attrs|);
    var j := JsonOf(v, true).value;
    forall k | 0 <= k < |j.members|
      ensures !HasNull(j.members[k].name) && Rejection(j.members[k].value).None?
    {
      assert j.members[k].name == PrintedAt(v.attrs, k).name;
    }
    NoMemberRejected(j, 0);
  }

  /** The member printed for an attribute is the only one with its name. */
  lemma MemberOf(v: Tree, ms: seq<Member>, i: nat) returns (k: nat)
    requires v.SetTree? && DistinctAttrs(v.attrs) && |ms| == |v.attrs| && i < |v.attrs|
    requires forall k :: 0 <= k < |ms| ==> ms[k].name == PrintedAt(v.attrs, k).name
    ensures k < |ms| && PrintedAt(v.attrs, k) == v.attrs[i]
    ensures LastMember(ms, |ms|, v.attrs[i].name) == Some(k)
  {
    var order := LexOrder(v.attrs, |v.attrs|);
    LexOrderOk(v.attrs, |v.attrs|);
    assert i in order;
    k :| 0 <= k < |order| && order[k] == i;
    var l := LastMember(ms, |ms|, v.attrs[i].name);
    assert ms[k].name == v.attrs[i].name;
    Ordering.BytesTotal(v.attrs[i].name, v.attrs[i].name);
    assert PrintedAt(v.attrs, l.value).name == v.attrs[i].name;
  }

  /** Parsing what data prints as rebuilds it. */
  lemma {:induction false} Rebuilds(v: Tree, heap: seq<Cell>, lo: nat, p: Ptr)
    requires IsData(v) && JsonOf(v, true).Out? && Holds(heap, lo, p, JsonOf(v, true).value)
    ensures Rebuilt(heap, p, v)
    decreases v
  {
    match v {
      case Thunk(w) =>
        Rebuilds(w, heap, lo, p);
      case ListTree(items) =>
        forall i | 0 <= i < |items|
          ensures JsonOf(items[i], true).Out?
        {
          DataIsPrinted(items[i]);
        }
        ItemsPrinted(v, |items|);
        forall i | 0 <= i < |items|
          ensures Rebuilt(heap, heap[p].items[i], items[i])
        {
          Rebuilds(items[i], heap, lo, heap[p].items[i]);
        }
      case SetTree(attrs, _) =>
        forall i | 0 <= i < |attrs|
          ensures JsonOf(attrs[i].value, true).Out? && Rejection(JsonOf(attrs[i].value, true).value).None?
        {
          DataIsPrinted(attrs[i].value);
        }
        SetHeld(v, heap, lo, p);
        forall i | 0 <= i < |attrs|
          ensures Rebuilt(heap, heap[p].attrs[attrs[i].name], attrs[i].value)
        {
          Rebuilds(attrs[i].value, heap, lo, heap[p].attrs[attrs[i].name]);
        }
      case _ =>
    }
  }

  /** The cell of a printed set has its names, each with a cell that holds its value. */
  lemma SetHeld(v: Tree, heap: seq<Cell>, lo: nat, p: Ptr)
    requires v.SetTree? && IsData(v) && JsonOf(v, true).Out? && Holds(heap, lo, p, JsonOf(v, true).value)
    requires forall i :: 0 <= i < |v.attrs| ==>
               JsonOf(v.attrs[i].value, true).Out? && Rejection(JsonOf(v.attrs[i].value, true).value).None?
    ensures heap[p].CAttrs? && forall name :: name in heap[p].attrs <==> IndexOf(v.attrs, 0, name).Some?
    ensures forall i :: 0 <= i < |v.attrs| ==>
              v.attrs[i].name in heap[p].attrs &&
                Holds(heap, lo, heap[p].attrs[v.attrs[i].name], JsonOf(v.attrs[i].value, true).value)
  {
    SetAccepted(v);
    MembersPrinted(v, |v.attrs|);
    var ms := JsonOf(v, true).value.members;
    forall i | 0 <= i < |v.attrs|
      ensures v.attrs[i].name in heap[p].attrs
      ensures Holds(heap, lo, heap[p].attrs[v.attrs[i].name], JsonOf(v.attrs[i].value, true).value)
    {
      var k := MemberOf(v, ms, i);
    }
    forall name | name in heap[p].attrs
      ensures IndexOf(v.attrs, 0, name).Some?
    {
      var k := LastMember(ms, |ms|, name).value;
      assert ms[k].name == PrintedAt(v.attrs, k).name;
    }
    forall name | IndexOf(v.attrs, 0, name).Some?
      ensures name in heap[p].attrs
    {
      assert v.attrs[IndexOf(v.attrs, 0, name).value].name == name;
    }
  }

  /** Printing data and feeding the parser its events rebuilds it. */
  method RoundTrip(v: Tree) returns (parser: Parser)
    requires IsData(v)
    ensures parser.rs == TopState(Some(0)) && Rebuilt(parser.heap, 0, v)
  {
    var r, _ := PrintValue(v, true, {});
    DataIsPrinted(v);
    parser := new Parser();
    var error := parser.Parse(r.value);
    Rebuilds(v, parser.heap, 1, 0);
  }
}
