/** What the JSON printer prints, said without printing: which values print, as what, what the
    first error is, and which contexts they bring along. */
module JsonMeaning {
  import Common
  import Ordering
  import opened JsonSax
  import opened JsonPrinter

  predicate HasAttr(attrs: seq<Attribute>, name: Common.Bytes) {
    exists i :: 0 <= i < |attrs| && attrs[i].name == name
  }

  /** The names of every set are distinct. */
  ghost predicate ProperTree(v: Tree) {
    match v
    case Thunk(w) => ProperTree(w)
    case ListTree(items) => forall i :: 0 <= i < |items| ==> ProperTree(items[i])
    case SetTree(attrs, _) =>
      DistinctAttrs(attrs) && forall i :: 0 <= i < |attrs| ==> ProperTree(attrs[i].value)
    case _ => true
  }

  /** `__toString` decides before `outPath`, and `outPath` before the attributes. */
  ghost predicate Printable(v: Tree, strict: bool) {
    match v
    case Thunk(w) => strict && Printable(w, strict)
    case Broken(_) => false
    case Function => false
    case PathTree(printed) => printed.out.Out?
    case ExternalTree(json) => json.out.Out?
    case ListTree(items) => forall i :: 0 <= i < |items| ==> Printable(items[i], strict)
    case SetTree(attrs, asString) =>
      if HasAttr(attrs, TO_STRING) then asString.out.Out?
      else
        forall i :: 0 <= i < |attrs| && (attrs[i].name == OUT_PATH || !HasAttr(attrs, OUT_PATH)) ==>
          Printable(attrs[i].value, strict)
    case _ => true
  }

  /** The document of a value. */
  ghost predicate Renders(v: Tree, j: Json)
    decreases v, 1
  {
    match v
    case Thunk(w) => Renders(w, j)
    case Broken(_) => false
    case Function => false
    case NullTree => j == JNull
    case BoolTree(b) => j == JBool(b)
    case IntTree(n) => j == JInt(n)
    case FloatTree(f) => j == JFloat(f)
    case StringTree(text) => j == JString(text.chars)
    case PathTree(printed) => printed.out.Out? && j == JString(printed.out.value)
    case ExternalTree(json) => json.out == Out(j)
    case ListTree(items) =>
      j.JArray? && |j.items| == |items| && forall i :: 0 <= i < |items| ==> Renders(items[i], j.items[i])
    case SetTree(attrs, asString) =>
      if HasAttr(attrs, TO_STRING) then asString.out.Out? && j == JString(asString.out.value)
      else if HasAttr(attrs, OUT_PATH) then
        forall i :: 0 <= i < |attrs| && attrs[i].name == OUT_PATH ==> Renders(attrs[i].value, j)
      else
        && j.JObject? && |j.members| == |attrs|
        && (forall k, l :: 0 <= k < l < |attrs| ==> Ordering.Before(j.members[k].name, j.members[l].name))
        && forall i: nat :: i < |attrs| ==> HasMember(v, i, j.members)
  }

  /** Some member has the name of the attribute and the document of its value. */
  ghost predicate HasMember(v: Tree, i: nat, ms: seq<Member>)
    requires v.SetTree? && i < |v.attrs|
    decreases v, 0
  {
    exists k :: 0 <= k < |ms| && ms[k].name == v.attrs[i].name && Renders(v.attrs[i].value, ms[k].value)
  }

  /** The error of a value that does not print: that of its first part that does not. */
  ghost predicate FailsWith(v: Tree, strict: bool, error: PrintError) {
    match v
    case Thunk(w) => if strict then FailsWith(w, strict, error) else error == CannotConvert
    case Broken(code) => error == if strict then Thrown(code) else CannotConvert
    case Function => error == CannotConvert
    case PathTree(printed) => printed.out == Fails(error)
    case ExternalTree(json) => json.out == Fails(error)
    case ListTree(items) =>
      exists i :: 0 <= i < |items| && FailsWith(items[i], strict, error)
                  && forall j :: 0 <= j < i ==> Printable(items[j], strict)
    case SetTree(attrs, asString) =>
      if HasAttr(attrs, TO_STRING) then asString.out == Fails(error)
      else if HasAttr(attrs, OUT_PATH) then
        exists i :: 0 <= i < |attrs| && attrs[i].name == OUT_PATH && FailsWith(attrs[i].value, strict, error)
      else
        exists i :: 0 <= i < |attrs| && FailsWith(attrs[i].value, strict, error) && AllBefore(v, strict, i)
    case _ => false
  }

  /** The attributes with lexicographically smaller names all print. */
  ghost predicate AllBefore(v: Tree, strict: bool, i: nat)
    requires v.SetTree? && i < |v.attrs|
    decreases v, 0
  {
    forall j :: 0 <= j < |v.attrs| && Ordering.Before(v.attrs[j].name, v.attrs[i].name) ==>
      Printable(v.attrs[j].value, strict)
  }

  /** The value brings an element of context along: a part that is reached does. */
  ghost predicate Brings(v: Tree, strict: bool, c: Item) {
    match v
    case Thunk(w) => strict && Brings(w, strict, c)
    case StringTree(text) => c in text.context
    case PathTree(printed) => c in printed.context
    case ExternalTree(json) => c in json.context
    case ListTree(items) =>
      exists i :: 0 <= i < |items| && Brings(items[i], strict, c)
                  && forall j :: 0 <= j < i ==> Printable(items[j], strict)
    case SetTree(attrs, asString) =>
      if HasAttr(attrs, TO_STRING) then c in asString.context
      else if HasAttr(attrs, OUT_PATH) then
        exists i :: 0 <= i < |attrs| && attrs[i].name == OUT_PATH && Brings(attrs[i].value, strict, c)
      else
        exists i :: 0 <= i < |attrs| && Brings(attrs[i].value, strict, c) && AllBefore(v, strict, i)
    case _ => false
  }

  /** A rendering is what the four predicates say. */
  ghost predicate Right(v: Tree, strict: bool, r: Rendering<Json>) {
    && (r.out.Out? <==> Printable(v, strict))
    && (r.out.Out? ==> Renders(v, r.out.value))
    && (r.out.Fails? ==> FailsWith(v, strict, r.out.error))
    && forall c :: c in r.context <==> Brings(v, strict, c)
  }

  /* Lists */

  /** The items printed so far, in terms of the renderings of the items. */
  ghost predicate ItemsRight(v: Tree, strict: bool, k: nat)
    requires v.ListTree? && k <= |v.items|
  {
    var r := ItemsOf(v, strict, k);
    && (r.out.Out? <==> forall i :: 0 <= i < k ==> Printable(v.items[i], strict))
    && (r.out.Out? ==> |r.out.value| == k && forall i :: 0 <= i < k ==> Renders(v.items[i], r.out.value[i]))
    && (r.out.Fails? ==> exists i :: 0 <= i < k && FailsWith(v.items[i], strict, r.out.error)
                                     && forall j :: 0 <= j < i ==> Printable(v.items[j], strict))
    && forall c :: c in r.context <==>
         exists i :: 0 <= i < k && Brings(v.items[i], strict, c)
                     && forall j :: 0 <= j < i ==> Printable(v.items[j], strict)
  }

  lemma {:induction false} ItemsAreRight(v: Tree, strict: bool, k: nat)
    requires v.ListTree? && k <= |v.items|
    requires forall i :: 0 <= i < k ==> Right(v.items[i], strict, PrintOf(v.items[i], strict))
    ensures ItemsRight(v, strict, k)
  {
    hide PrintOf, Printable, Renders, FailsWith, Brings;
    if k > 0 {
      ItemsAreRight(v, strict, k - 1);
      assert Right(v.items[k - 1], strict, PrintOf(v.items[k - 1], strict));
    }
  }

  /* Sets without `__toString` and `outPath` */

  ghost predicate MembersRight(v: Tree, strict: bool, k: nat)
    requires v.SetTree? && k <= |v.attrs|
  {
    var r := MembersOf(v, strict, k);
    && (r.out.Out? <==> forall i: nat :: i < k ==> Printable(PrintedAt(v.attrs, i).value, strict))
    && (r.out.Out? ==>
          && |r.out.value| == k
          && forall i: nat :: i < k ==>
               r.out.value[i].name == PrintedAt(v.attrs, i).name
               && Renders(PrintedAt(v.attrs, i).value, r.out.value[i].value))
    && (r.out.Fails? ==> exists i: nat :: i < k && FailsNth(v, strict, i, r.out.error))
    && forall c :: c in r.context <==> exists i: nat :: i < k && BringsNth(v, strict, i, c)
  }

  /** The attribute printed `i`th fails, and those before it print. */
  ghost predicate FailsNth(v: Tree, strict: bool, i: nat, error: PrintError)
    requires v.SetTree? && i < |v.attrs|
  {
    && FailsWith(PrintedAt(v.attrs, i).value, strict, error)
    && forall j: nat :: j < i ==> Printable(PrintedAt(v.attrs, j).value, strict)
  }

  ghost predicate BringsNth(v: Tree, strict: bool, i: nat, c: Item)
    requires v.SetTree? && i < |v.attrs|
  {
    && Brings(PrintedAt(v.attrs, i).value, strict, c)
    && forall j: nat :: j < i ==> Printable(PrintedAt(v.attrs, j).value, strict)
  }

  lemma {:induction false} MembersAreRight(v: Tree, strict: bool, k: nat)
    requires v.SetTree? && k <= |v.attrs|
    requires forall i :: 0 <= i < |v.attrs| ==> Right(v.attrs[i].value, strict, PrintOf(v.attrs[i].value, strict))
    ensures MembersRight(v, strict, k)
  {
    hide PrintOf, Printable, Renders, FailsWith, Brings, LexOrder;
    if k > 0 {
      MembersAreRight(v, strict, k - 1);
      var a := PrintedAt(v.attrs, k - 1);
      assert Right(a.value, strict, PrintOf(a.value, strict));
      var before, r := MembersOf(v, strict, k - 1), MembersOf(v, strict, k);
      assert r == Snoc(before, Named(a.name, PrintOf(a.value, strict)));
      if r.out.Fails? {
        assert before.out.Out? ==> FailsNth(v, strict, k - 1, r.out.error);
      }
      forall c
        ensures c in r.context <==> exists i: nat :: i < k && BringsNth(v, strict, i, c)
      {
        assert BringsNth(v, strict, k - 1, c) <==> before.out.Out? && c in PrintOf(a.value, strict).context;
      }
    }
  }

  /** The order of printing is the lexicographic order of the names. */
  lemma OrderOfPrinting(attrs: seq<Attribute>, k: nat, l: nat)
    requires DistinctAttrs(attrs) && k < |attrs| && l < |attrs|
    ensures k < l <==> Ordering.Before(PrintedAt(attrs, k).name, PrintedAt(attrs, l).name)
  {
    var a, b := PrintedAt(attrs, k).name, PrintedAt(attrs, l).name;
    LexOrderOk(attrs, |attrs|);
    Ordering.BytesLessMeans(a, b);
    Ordering.BytesTotal(a, b);
  }

  lemma Position(attrs: seq<Attribute>, i: nat) returns (k: nat)
    requires DistinctAttrs(attrs) && i < |attrs|
    ensures k < |attrs| && PrintedAt(attrs, k) == attrs[i]
  {
    LexOrderOk(attrs, |attrs|);
    var order := LexOrder(attrs, |attrs|);
    assert i in order;
    k :| 0 <= k < |order| && order[k] == i;
  }

  lemma IndexAt(attrs: seq<Attribute>, k: nat) returns (i: nat)
    requires k < |attrs|
    ensures i < |attrs| && attrs[i] == PrintedAt(attrs, k)
  {
    i := LexOrder(attrs, |attrs|)[k];
  }

  /** Those printed before are those with smaller names. */
  lemma BeforeIsEarlier(v: Tree, strict: bool, i: nat, k: nat)
    requires v.SetTree? && DistinctAttrs(v.attrs) && i < |v.attrs| && k < |v.attrs|
    requires PrintedAt(v.attrs, k) == v.attrs[i]
    ensures AllBefore(v, strict, i) <==> forall j: nat :: j < k ==> Printable(PrintedAt(v.attrs, j).value, strict)
  {
    hide LexOrder, Printable, DistinctAttrs;
    forall j: nat | j < k && AllBefore(v, strict, i)
      ensures Printable(PrintedAt(v.attrs, j).value, strict)
    {
      var m := IndexAt(v.attrs, j);
      OrderOfPrinting(v.attrs, j, k);
    }
    forall m: nat | m < |v.attrs| && Ordering.Before(v.attrs[m].name, v.attrs[i].name)
      && forall j: nat :: j < k ==> Printable(PrintedAt(v.attrs, j).value, strict)
      ensures Printable(v.attrs[m].value, strict)
    {
      var j := Position(v.attrs, m);
      OrderOfPrinting(v.attrs, j, k);
    }
  }

  lemma SetPrints(v: Tree, strict: bool)
    requires v.SetTree? && DistinctAttrs(v.attrs)
    requires !HasAttr(v.attrs, TO_STRING) && !HasAttr(v.attrs, OUT_PATH)
    requires MembersRight(v, strict, |v.attrs|)
    ensures Right(v, strict, PrintOf(v, strict))
  {
    SetPrint(v, strict);
    hide PrintOf, MembersOf, HasAttr, DistinctAttrs, LexOrder;
    var r := MembersOf(v, strict, |v.attrs|);
    SetPrintable(v, strict);
    if r.out.Out? {
      SetRenders(v, strict);
    } else {
      SetFails(v, strict, r.out.error);
    }
    forall c
      ensures c in r.context <==> Brings(v, strict, c)
    {
      SetBrings(v, strict, c);
    }
  }

  lemma SetPrintable(v: Tree, strict: bool)
    requires v.SetTree? && DistinctAttrs(v.attrs)
    requires !HasAttr(v.attrs, TO_STRING) && !HasAttr(v.attrs, OUT_PATH)
    ensures Printable(v, strict) <==>
      forall i: nat :: i < |v.attrs| ==> Printable(PrintedAt(v.attrs, i).value, strict)
  {
    hide LexOrder, DistinctAttrs;
    forall i: nat | i < |v.attrs| && Printable(v, strict)
      ensures Printable(PrintedAt(v.attrs, i).value, strict)
    {
      var m := IndexAt(v.attrs, i);
    }
    forall m: nat | m < |v.attrs|
      && forall i: nat :: i < |v.attrs| ==> Printable(PrintedAt(v.attrs, i).value, strict)
      ensures Printable(v.attrs[m].value, strict)
    {
      var i := Position(v.attrs, m);
    }
  }

  lemma SetRenders(v: Tree, strict: bool)
    requires v.SetTree? && DistinctAttrs(v.attrs)
    requires !HasAttr(v.attrs, TO_STRING) && !HasAttr(v.attrs, OUT_PATH)
    requires MembersRight(v, strict, |v.attrs|) && MembersOf(v, strict, |v.attrs|).out.Out?
    ensures Renders(v, JObject(MembersOf(v, strict, |v.attrs|).out.value))
  {
    hide LexOrder, DistinctAttrs, MembersOf, Printable;
    var ms := MembersOf(v, strict, |v.attrs|).out.value;
    forall k: nat, l: nat | k < l < |v.attrs|
      ensures Ordering.Before(ms[k].name, ms[l].name)
    {
      OrderOfPrinting(v.attrs, k, l);
    }
    forall i: nat | i < |v.attrs|
      ensures HasMember(v, i, ms)
    {
      var k := Position(v.attrs, i);
      assert ms[k].name == PrintedAt(v.attrs, k).name;
    }
  }

  lemma SetFails(v: Tree, strict: bool, error: PrintError)
    requires v.SetTree? && DistinctAttrs(v.attrs)
    requires !HasAttr(v.attrs, TO_STRING) && !HasAttr(v.attrs, OUT_PATH)
    requires exists k: nat :: k < |v.attrs| && FailsNth(v, strict, k, error)
    ensures FailsWith(v, strict, error)
  {
    hide LexOrder, DistinctAttrs, AllBefore;
    var k: nat :| k < |v.attrs| && FailsNth(v, strict, k, error);
    var i := IndexAt(v.attrs, k);
    BeforeIsEarlier(v, strict, i, k);
    assert FailsWith(v.attrs[i].value, strict, error) && AllBefore(v, strict, i);
  }

  lemma SetBrings(v: Tree, strict: bool, c: Item)
    requires v.SetTree? && DistinctAttrs(v.attrs)
    requires !HasAttr(v.attrs, TO_STRING) && !HasAttr(v.attrs, OUT_PATH)
    ensures Brings(v, strict, c) <==> exists k: nat :: k < |v.attrs| && BringsNth(v, strict, k, c)
  {
    hide LexOrder, DistinctAttrs, AllBefore;
    if Brings(v, strict, c) {
      var i: nat :| i < |v.attrs| && Brings(v.attrs[i].value, strict, c) && AllBefore(v, strict, i);
      var k := Position(v.attrs, i);
      BeforeIsEarlier(v, strict, i, k);
      assert BringsNth(v, strict, k, c);
    }
    if k: nat :| k < |v.attrs| && BringsNth(v, strict, k, c) {
      var i := IndexAt(v.attrs, k);
      BeforeIsEarlier(v, strict, i, k);
      assert Brings(v.attrs[i].value, strict, c) && AllBefore(v, strict, i);
    }
  }

  /* All values */

  /** Exactly the printable values print, as what they render to; the error of another is that
      of its first part that does not print; and the context added is, element by element, what
      the parts that were reached bring along. */
  lemma {:induction false} PrintIsRight(v: Tree, strict: bool)
    requires ProperTree(v)
    ensures Right(v, strict, PrintOf(v, strict))
    decreases v
  {
    hide PrintOf, Right, Printable, Renders, FailsWith, Brings, HasAttr, MembersOf, ItemsOf, DistinctAttrs;
    match v
    case Thunk(w) =>
      PrintIsRight(w, strict);
      ThunkPrints(v, strict);
    case ListTree(items) =>
      forall i | 0 <= i < |items|
        ensures Right(items[i], strict, PrintOf(items[i], strict))
      {
        PrintIsRight(items[i], strict);
      }
      ItemsAreRight(v, strict, |items|);
      ListPrints(v, strict);
    case SetTree(attrs, _) =>
      forall i | 0 <= i < |attrs|
        ensures Right(attrs[i].value, strict, PrintOf(attrs[i].value, strict))
      {
        PrintIsRight(attrs[i].value, strict);
      }
      if !HasAttr(attrs, TO_STRING) && !HasAttr(attrs, OUT_PATH) {
        MembersAreRight(v, strict, |attrs|);
        SetPrints(v, strict);
      } else {
        SpecialPrints(v, strict);
      }
    case _ => LeafPrints(v, strict);
  }

  lemma ThunkPrints(v: Tree, strict: bool)
    requires v.Thunk? && Right(v.value, strict, PrintOf(v.value, strict))
    ensures Right(v, strict, PrintOf(v, strict))
  {
  }

  lemma LeafPrints(v: Tree, strict: bool)
    requires !v.Thunk? && !v.ListTree? && !v.SetTree?
    ensures Right(v, strict, PrintOf(v, strict))
  {
  }

  lemma ListPrints(v: Tree, strict: bool)
    requires v.ListTree? && ItemsRight(v, strict, |v.items|)
    ensures Right(v, strict, PrintOf(v, strict))
  {
    ListPrint(v, strict);
    hide PrintOf, ItemsOf;
  }

  lemma SpecialPrints(v: Tree, strict: bool)
    requires v.SetTree? && DistinctAttrs(v.attrs) && (HasAttr(v.attrs, TO_STRING) || HasAttr(v.attrs, OUT_PATH))
    requires forall i :: 0 <= i < |v.attrs| ==> Right(v.attrs[i].value, strict, PrintOf(v.attrs[i].value, strict))
    ensures Right(v, strict, PrintOf(v, strict))
  {
    if !HasAttr(v.attrs, TO_STRING) {
      var i := IndexOf(v.attrs, 0, OUT_PATH).value;
      assert forall j :: 0 <= j < |v.attrs| && v.attrs[j].name == OUT_PATH ==> j == i;
      assert PrintOf(v, strict) == PrintOf(v.attrs[i].value, strict);
    }
  }

  /* Data */

  /** Some string in the value has the element in its context. */
  ghost predicate InSomeString(v: Tree, c: Item) {
    match v
    case Thunk(w) => InSomeString(w, c)
    case StringTree(text) => c in text.context
    case ListTree(items) => exists i :: 0 <= i < |items| && InSomeString(items[i], c)
    case SetTree(attrs, _) => exists i :: 0 <= i < |attrs| && InSomeString(attrs[i].value, c)
    case _ => false
  }

  /** Data brings along the contexts of all its strings. */
  lemma {:induction false} DataBrings(v: Tree, c: Item)
    requires IsData(v)
    ensures ProperTree(v) && Printable(v, true) && (Brings(v, true, c) <==> InSomeString(v, c))
    decreases v
  {
    match v
    case Thunk(w) => DataBrings(w, c);
    case ListTree(items) =>
      forall i | 0 <= i < |items|
        ensures ProperTree(items[i]) && Printable(items[i], true)
        ensures Brings(items[i], true, c) <==> InSomeString(items[i], c)
      {
        DataBrings(items[i], c);
      }
    case SetTree(attrs, _) =>
      forall i | 0 <= i < |attrs|
        ensures ProperTree(attrs[i].value) && Printable(attrs[i].value, true)
        ensures Brings(attrs[i].value, true, c) <==> InSomeString(attrs[i].value, c)
      {
        DataBrings(attrs[i].value, c);
      }
      forall i | 0 <= i < |attrs|
        ensures AllBefore(v, true, i)
      {
      }
    case _ =>
  }

  /** Printing data adds the contexts of its strings and nothing else. */
  method PrintData(v: Tree, context: set<Item>) returns (j: Json, context': set<Item>)
    requires IsData(v)
    ensures Renders(v, j)
    ensures forall c :: c in context' <==> c in context || InSomeString(v, c)
  {
    var r;
    r, context' := PrintValue(v, true, context);
    forall c
      ensures ProperTree(v) && Printable(v, true) && (Brings(v, true, c) <==> InSomeString(v, c))
    {
      DataBrings(v, c);
    }
    DataBrings(v, 0);
    PrintIsRight(v, true);
    j := r.value;
  }
}
