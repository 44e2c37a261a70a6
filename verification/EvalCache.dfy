/** The evaluation cache: a table of attribute rows that outlives a session, and the
    cursors of any number of sessions that read it, write it and remember rows that may
    since have been replaced. The value tree being cached is the reference. */
module EvalCache {
  import opened Common

  type AttrId = nat

  /** An attribute path, innermost name last. */
  datatype Path = Root | Child(up: Path, name: Symbol)

  /** What evaluating an attribute yields: an evaluation error, another exception, a scalar, a
      set with its names, or anything else. */
  datatype Node =
    | Fails
    | Aborts
    | Str(s: string)
    /** A path: what `setString` stores of it, and what `getString` shows of it. */
    | PathValue(abs: string, shown: string)
    | Bool(b: bool)
    | Int(n: int)
    | Set(names: set<Symbol>)
    | Other

  /** A value: what is found at each path. Attribute sets may be infinitely deep, as cyclic
      ones are; what the function says of a path that does not exist does not matter. */
  type Tree = Path -> Node

  datatype Result<+T> = Ok(value: T) | Throws

  predicate IsThrown(v: Node) {
    v.Fails? || v.Aborts?
  }

  predicate HasName(v: Option<Node>, name: Symbol) {
    v.Some? && v.value.Set? && name in v.value.names
  }

  /** The value at a path, if every step of it names an attribute of a set. */
  function At(tree: Tree, path: Path): (r: Option<Node>)
    ensures r.Some? ==> r.value == tree(path)
  {
    match path
    case Root => Some(tree(Root))
    case Child(up, name) => if HasName(At(tree, up), name) then Some(tree(path)) else None
  }

  /* Rows */

  /** `AttrType` and the row's value; a row of full attributes keeps its names as rows of
      their own. */
  datatype Tag =
    | Placeholder
    | FullAttrs
    | StringRow(s: string)
    | Missing
    | Misc
    | Failed
    | BoolRow(b: bool)
    | IntRow(n: int)

  datatype Row = Row(id: AttrId, tag: Tag)

  datatype Key = Key(parent: AttrId, name: Symbol)

  /** `AttrValue`, what a cursor remembers of a row. */
  datatype Cached =
    | Unknown
    | Names(names: set<Symbol>)
    | Text(s: string)
    | Absent
    | Unsupported
    | Failure
    | Flag(b: bool)
    | Number(n: int)

  datatype Entry = Entry(id: AttrId, cached: Cached)

  /** Rows store integers through a C `int`. */
  function ToInt(n: int): (r: int)
    ensures InInt(r)
    ensures InInt(n) ==> r == n
  {
    (n + 0x8000_0000) % 0x1_0000_0000 - 0x8000_0000
  }

  predicate InInt(n: int) {
    -0x8000_0000 <= n < 0x8000_0000
  }

  /** A stored integer reads back unchanged exactly when it fits a C `int`. */
  lemma StoredIntExact(n: int)
    ensures ToInt(n) == n <==> InInt(n)
  {
  }

  /** A tag is true of the value (or absence of one) at its path. */
  ghost predicate TagTrue(tag: Tag, v: Option<Node>) {
    match tag
    case Placeholder => v.Some?
    case FullAttrs => v.Some? && v.value.Set?
    case StringRow(s) => v == Some(Str(s)) || (v.Some? && v.value.PathValue? && v.value.abs == s)
    case Missing => v.None?
    case Misc => v == Some(Other)
    case Failed => v == Some(Fails)
    case BoolRow(b) => v == Some(Bool(b))
    case IntRow(n) => v.Some? && v.value.Int? && n == ToInt(v.value.n)
  }

  /** What a cursor remembers is true of its value. The copy a cursor keeps of an integer
      it has just evaluated is exact; what is read from the table has been stored. */
  ghost predicate CachedTrue(c: Cached, v: Node, exact: bool) {
    match c
    case Unknown => true
    case Names(names) => v.Set? && names == v.names
    case Text(s) => v == Str(s) || (v.PathValue? && v.abs == s)
    case Absent => false
    case Unsupported => v == Other
    case Failure => v == Fails
    case Flag(b) => v == Bool(b)
    case Number(n) => v.Int? && n == if exact then v.n else ToInt(v.n)
  }

  ghost predicate IsSetAt(tree: Tree, path: Path) {
    At(tree, path).Some? && At(tree, path).value.Set?
  }

  /** The database as a value: its rows, and ghost knowledge of where every row ever
      written sits in the tree and which ids were written as full attributes. */
  datatype Table = Table(rows: map<Key, Row>, lastId: AttrId, places: map<AttrId, Path>, fulls: set<AttrId>)

  ghost predicate KeyPlaced(t: Table, tree: Tree, k: Key, path: Path) {
    if k.parent == 0 then k.name == EPSILON && path == Root
    else k.parent in t.places && path == Child(t.places[k.parent], k.name) && IsSetAt(tree, t.places[k.parent])
  }

  /** The row names a real place of the tree, or for a missing one an absent name of a
      real set, and its tag is true of that place. */
  ghost predicate RowTrue(t: Table, tree: Tree, k: Key)
    requires k in t.rows
  {
    var row := t.rows[k];
    && row.id in t.places
    && KeyPlaced(t, tree, k, t.places[row.id])
    && TagTrue(row.tag, At(tree, t.places[row.id]))
    && (row.tag.FullAttrs? <==> row.id in t.fulls)
  }

  /** What reading a key back yields. A row of full attributes is read with the names of
      the rows below it. */
  ghost function ReadBack(t: Table, k: Key): Option<Entry> {
    if k !in t.rows then None
    else
      var row := t.rows[k];
      Some(Entry(row.id,
        match row.tag
        case Placeholder => Unknown
        case FullAttrs => Names(set j | j in t.rows.Keys && j.parent == row.id :: j.name)
        case StringRow(s) => Text(s)
        case Missing => Absent
        case Misc => Unsupported
        case Failed => Failure
        case BoolRow(b) => Flag(b)
        case IntRow(n) => Number(n)))
  }

  /** The rows ever written keep their places and their kind. */
  ghost predicate Grows(t: Table, t': Table) {
    && t.lastId <= t'.lastId
    && (forall id :: id in t.places ==> id in t'.places && t'.places[id] == t.places[id])
    && (forall id :: id in t.places ==> (id in t'.fulls <==> id in t.fulls))
  }

  /** The rows below an id written as full attributes are names of the set, and, unless
      they are still being written, all of them. */
  ghost predicate NamesUnder(t: Table, tree: Tree, id: AttrId, complete: bool)
    requires id in t.places
  {
    && IsSetAt(tree, t.places[id])
    && (forall name :: Key(id, name) in t.rows ==> name in At(tree, t.places[id]).value.names)
    && (complete ==> forall name :: name in At(tree, t.places[id]).value.names ==> Key(id, name) in t.rows)
  }

  /** The table is true, except that the names below the id `partial` may be incomplete. */
  ghost predicate TableTrueBut(t: Table, tree: Tree, partial: AttrId) {
    && (forall id :: id in t.places ==> 0 < id <= t.lastId)
    && t.fulls <= t.places.Keys
    && (forall k :: k in t.rows ==> RowTrue(t, tree, k))
    && (forall k :: k in t.rows ==> k.parent <= t.lastId)
    && (forall id :: id in t.fulls ==> NamesUnder(t, tree, id, id != partial))
  }

  /** Every row is true, and every set written in full has exactly its names below it. */
  ghost predicate TableTrue(t: Table, tree: Tree) {
    TableTrueBut(t, tree, 0)
  }

  /** `insert or replace`: the row of the key is deleted, if there is one, and a row with
      a fresh id is inserted. */
  ghost function Inserted(t: Table, k: Key, tag: Tag, path: Path): Table {
    var id := t.lastId + 1;
    Table(t.rows[k := Row(id, tag)], id, t.places[id := path], if tag.FullAttrs? then t.fulls + {id} else t.fulls)
  }

  lemma InsertGrows(t: Table, tree: Tree, partial: AttrId, k: Key, tag: Tag, path: Path)
    requires TableTrueBut(t, tree, partial)
    ensures var t' := Inserted(t, k, tag, path);
      && Grows(t, t')
      && t'.lastId !in t.places
      && (forall id :: id in t'.places ==> 0 < id <= t'.lastId)
      && t'.fulls <= t'.places.Keys
  {
  }

  /** Placement only depends on the places of rows already written. */
  lemma PlacedGrows(t: Table, t': Table, tree: Tree, k: Key, path: Path)
    requires KeyPlaced(t, tree, k, path)
    requires forall id :: id in t.places ==> id in t'.places && t'.places[id] == t.places[id]
    ensures KeyPlaced(t', tree, k, path)
  {
  }

  lemma InsertRowTrue(t: Table, tree: Tree, partial: AttrId, k: Key, tag: Tag, path: Path, j: Key)
    requires TableTrueBut(t, tree, partial) && KeyPlaced(t, tree, k, path) && TagTrue(tag, At(tree, path))
    requires j in Inserted(t, k, tag, path).rows
    ensures RowTrue(Inserted(t, k, tag, path), tree, j) && j.parent <= t.lastId
  {
    var t' := Inserted(t, k, tag, path);
    InsertGrows(t, tree, partial, k, tag, path);
    if j == k {
      PlacedGrows(t, t', tree, k, path);
    } else {
      assert RowTrue(t, tree, j);
      PlacedGrows(t, t', tree, j, t.places[t.rows[j].id]);
    }
  }

  lemma InsertNamesTrue(t: Table, tree: Tree, partial: AttrId, k: Key, tag: Tag, path: Path, id: AttrId)
    requires TableTrueBut(t, tree, partial) && KeyPlaced(t, tree, k, path) && TagTrue(tag, At(tree, path))
    requires tag.Missing? ==> k.parent !in t.fulls
    requires tag.FullAttrs? ==> partial == t.lastId + 1
    requires id in Inserted(t, k, tag, path).fulls
    ensures id in Inserted(t, k, tag, path).places && NamesUnder(Inserted(t, k, tag, path), tree, id, id != partial)
  {
    var t' := Inserted(t, k, tag, path);
    InsertGrows(t, tree, partial, k, tag, path);
    if id in t.fulls {
      assert NamesUnder(t, tree, id, id != partial);
    } else {
      assert k.parent <= t.lastId;
      forall name
        ensures Key(id, name) !in t'.rows
      {
        assert Key(id, name) !in t.rows;
      }
    }
  }

  /** Every write of a single row keeps the table true. A row of full attributes starts
      out with no name below it. */
  lemma InsertKeepsTrue(t: Table, tree: Tree, partial: AttrId, k: Key, tag: Tag, path: Path)
    requires TableTrueBut(t, tree, partial) && KeyPlaced(t, tree, k, path) && TagTrue(tag, At(tree, path))
    requires tag.Missing? ==> k.parent !in t.fulls
    requires tag.FullAttrs? ==> partial == t.lastId + 1
    ensures TableTrueBut(Inserted(t, k, tag, path), tree, partial)
    ensures Grows(t, Inserted(t, k, tag, path))
    ensures !tag.FullAttrs? ==> t.lastId + 1 !in Inserted(t, k, tag, path).fulls
  {
    var t' := Inserted(t, k, tag, path);
    InsertGrows(t, tree, partial, k, tag, path);
    forall j | j in t'.rows
      ensures RowTrue(t', tree, j) && j.parent <= t.lastId
    {
      InsertRowTrue(t, tree, partial, k, tag, path, j);
    }
    forall id | id in t'.fulls
      ensures id in t'.places && NamesUnder(t', tree, id, id != partial)
    {
      InsertNamesTrue(t, tree, partial, k, tag, path, id);
    }
  }

  /** One placeholder for each of the first `n` names in turn. */
  ghost function NamesInserted(t: Table, id: AttrId, names: seq<Symbol>, n: nat, path: Path): Table
    requires n <= |names|
  {
    if n == 0 then t
    else Inserted(NamesInserted(t, id, names, n - 1, path), Key(id, names[n - 1]), Placeholder,
      Child(path, names[n - 1]))
  }

  lemma {:induction false} NamesInsertedTrue(t: Table, tree: Tree, id: AttrId, names: seq<Symbol>, n: nat, path: Path)
    requires TableTrueBut(t, tree, id) && id in t.fulls && id in t.places && t.places[id] == path && IsSetAt(tree, path)
    requires id > 0 && n <= |names| && forall x :: x in names ==> x in At(tree, path).value.names
    ensures var t' := NamesInserted(t, id, names, n, path);
      TableTrueBut(t', tree, id) && Grows(t, t') && forall i :: 0 <= i < n ==> Key(id, names[i]) in t'.rows
  {
    hide TableTrueBut, At, IsSetAt, Inserted, Grows;
    if n > 0 {
      NamesInsertedTrue(t, tree, id, names, n - 1, path);
      NameInsertedTrue(t, NamesInserted(t, id, names, n - 1, path), tree, id, names[n - 1], path);
    } else {
      GrowsAtOnce(t);
    }
  }

  lemma GrowsAtOnce(t: Table)
    ensures Grows(t, t)
  {
  }

  lemma NameInsertedTrue(t: Table, t1: Table, tree: Tree, id: AttrId, name: Symbol, path: Path)
    requires TableTrueBut(t1, tree, id) && Grows(t, t1)
    requires id in t.fulls && id in t.places && t.places[id] == path && IsSetAt(tree, path)
    requires id > 0 && name in At(tree, path).value.names
    ensures var t2 := Inserted(t1, Key(id, name), Placeholder, Child(path, name));
      TableTrueBut(t2, tree, id) && Grows(t, t2) && t2.rows.Keys == t1.rows.Keys + {Key(id, name)}
  {
    hide TableTrueBut;
    InsertKeepsTrue(t1, tree, id, Key(id, name), Placeholder, Child(path, name));
  }

  /** `setAttrs`: the row of the set, then a row for every name. */
  ghost function AttrsInserted(t: Table, k: Key, names: seq<Symbol>, path: Path): Table {
    NamesInserted(Inserted(t, k, FullAttrs, path), t.lastId + 1, names, |names|, path)
  }

  /** Writing a set with all its names keeps the table true. */
  lemma SetAttrsKeepsTrue(t: Table, tree: Tree, k: Key, names: seq<Symbol>, path: Path)
    requires TableTrue(t, tree) && KeyPlaced(t, tree, k, path) && IsSetAt(tree, path)
    requires forall n :: n in names <==> n in At(tree, path).value.names
    ensures var t' := AttrsInserted(t, k, names, path);
      && TableTrue(t', tree) && Grows(t, t')
      && t.lastId + 1 in t'.places && t'.places[t.lastId + 1] == path && t.lastId + 1 in t'.fulls
  {
    var id, t' := t.lastId + 1, AttrsInserted(t, k, names, path);
    TruePartial(t, tree, 0, id);
    InsertKeepsTrue(t, tree, id, k, FullAttrs, path);
    NamesInsertedTrue(Inserted(t, k, FullAttrs, path), tree, id, names, |names|, path);
    assert NamesUnder(t', tree, id, false);
    TruePartial(t', tree, id, 0);
  }

  /** The exception may move once the names it excused are there. */
  lemma TruePartial(t: Table, tree: Tree, partial: AttrId, other: AttrId)
    requires TableTrueBut(t, tree, partial)
    requires partial in t.fulls ==> NamesUnder(t, tree, partial, true)
    ensures TableTrueBut(t, tree, other)
  {
    forall id | id in t.fulls
      ensures NamesUnder(t, tree, id, id != other)
    {
      assert NamesUnder(t, tree, id, id != partial);
    }
  }

  class AttrDb {
    /** The table, keyed by (parent, name) as its primary key is. */
    var rows: map<Key, Row>
    var lastId: AttrId

    /** The value the table describes. */
    ghost const tree: Tree
    ghost var places: map<AttrId, Path>
    ghost var fulls: set<AttrId>
    /** Every cursor any session has opened. */
    ghost var cursors: set<AttrCursor>

    constructor (ghost tree: Tree)
      ensures Valid() && this.tree == tree && cursors == {} && rows == map[]
    {
      this.tree := tree;
      rows, lastId := map[], 0;
      places, fulls, cursors := map[], {}, {};
    }

    ghost function Contents(): Table
      reads this
    {
      Table(rows, lastId, places, fulls)
    }

    ghost predicate CursorTrue(c: AttrCursor)
      reads this, c
    {
      && c.cache.db == this && c.cache.root == tree
      && At(tree, c.path).Some?
      && (c.parent == null ==> c.path == Root)
      && (c.parent != null ==> c.path == Child(c.parent.path, c.name))
      && (c.entry.Some? ==> EntryTrue(c.entry.value, c.path, c.evaluated))
    }

    /** A remembered row may have been replaced, but it was written for this place and
        what is remembered of it is true. */
    ghost predicate EntryTrue(e: Entry, path: Path, exact: bool)
      requires At(tree, path).Some?
      reads this
    {
      && e.id in places && places[e.id] == path
      && CachedTrue(e.cached, At(tree, path).value, exact)
      && (e.cached.Names? ==> e.id in fulls)
      && (e.cached.Unknown? ==> e.id !in fulls)
    }

    /** A child cursor exists only once its parent knows its own row. */
    ghost predicate ParentKnown(c: AttrCursor)
      reads this, cursors, c
    {
      c.parent != null ==> c.parent in cursors && c.parent.entry.Some?
    }

    ghost predicate Valid()
      reads this, cursors
    {
      TableTrue(Contents(), tree) && forall c :: c in cursors ==> CursorTrue(c) && ParentKnown(c)
    }

    method Insert(k: Key, tag: Tag, ghost path: Path) returns (id: AttrId)
      requires Valid() && KeyPlaced(Contents(), tree, k, path) && TagTrue(tag, At(tree, path))
      requires !tag.FullAttrs? && (tag.Missing? ==> k.parent !in fulls)
      modifies this
      ensures Valid() && cursors == old(cursors)
      ensures Contents() == Inserted(old(Contents()), k, tag, path)
      ensures id == lastId && id in places && places[id] == path && id !in fulls
      ensures Grows(old(Contents()), Contents())
    {
      hide TableTrueBut;
      ghost var before := Contents();
      InsertKeepsTrue(before, tree, 0, k, tag, path);
      lastId := lastId + 1;
      id := lastId;
      rows := rows[k := Row(id, tag)];
      places := places[id := path];
      CursorsKept(before);
    }

    method SetAttrs(k: Key, attrs: seq<Symbol>, ghost path: Path) returns (id: AttrId)
      requires Valid() && KeyPlaced(Contents(), tree, k, path) && IsSetAt(tree, path)
      requires forall n :: n in attrs <==> n in At(tree, path).value.names
      modifies this
      ensures Valid() && cursors == old(cursors)
      ensures Contents() == AttrsInserted(old(Contents()), k, attrs, path)
      ensures id in places && places[id] == path && id in fulls
      ensures Grows(old(Contents()), Contents())
    {
      hide TableTrueBut, CachedTrue, NamesUnder, NamesInserted, KeyPlaced;
      ghost var before := Contents();
      SetAttrsKeepsTrue(before, tree, k, attrs, path);
      lastId := lastId + 1;
      id := lastId;
      rows := rows[k := Row(id, FullAttrs)];
      places := places[id := path];
      fulls := fulls + {id};
      InsertNames(id, attrs, path);
      CursorsKept(before);
    }

    method InsertNames(id: AttrId, attrs: seq<Symbol>, ghost path: Path)
      modifies this
      ensures Contents() == NamesInserted(old(Contents()), id, attrs, |attrs|, path) && cursors == old(cursors)
    {
      for i := 0 to |attrs|
        invariant Contents() == NamesInserted(old(Contents()), id, attrs, i, path) && cursors == old(cursors)
      {
        lastId := lastId + 1;
        rows := rows[Key(id, attrs[i]) := Row(lastId, Placeholder)];
        places := places[lastId := Child(path, attrs[i])];
      }
    }

    /** Growing the table leaves every cursor true. */
    twostate lemma CursorsKept(before: Table)
      requires before == old(Contents()) && old(Valid())
      requires cursors == old(cursors) && Grows(before, Contents())
      requires forall c :: c in cursors ==> c.entry == old(c.entry) && c.evaluated == old(c.evaluated)
      ensures forall c :: c in cursors ==> CursorTrue(c) && ParentKnown(c)
    {
      forall c | c in cursors
        ensures CursorTrue(c) && ParentKnown(c)
      {
        assert old(CursorTrue(c)) && old(ParentKnown(c));
      }
    }

    /** `getAttr`. */
    method GetAttr(k: Key) returns (r: Option<Entry>)
      requires Valid()
      ensures r == ReadBack(Contents(), k)
      ensures r.Some? ==> r.value.id in places && KeyPlaced(Contents(), tree, k, places[r.value.id])
      ensures r.Some? && At(tree, places[r.value.id]).Some? ==> EntryTrue(r.value, places[r.value.id], false)
    {
      if k !in rows {
        return None;
      }
      assert RowTrue(Contents(), tree, k);
      var row := rows[k];
      match row.tag
      case Placeholder => return Some(Entry(row.id, Unknown));
      case FullAttrs =>
        assert NamesUnder(Contents(), tree, row.id, true);
        var names := set j | j in rows.Keys && j.parent == row.id :: j.name;
        forall n
          ensures n in names <==> Key(row.id, n) in rows
        {
        }
        return Some(Entry(row.id, Names(names)));
      case StringRow(s) => return Some(Entry(row.id, Text(s)));
      case Missing => return Some(Entry(row.id, Absent));
      case Misc => return Some(Entry(row.id, Unsupported));
      case Failed => return Some(Entry(row.id, Failure));
      case BoolRow(b) => return Some(Entry(row.id, Flag(b)));
      case IntRow(n) => return Some(Entry(row.id, Number(n)));
    }
  }

  class Cache {
    const db: AttrDb
    const root: Tree

    /** A new session on a database. The evaluator is deterministic: the fingerprint that
        names the database determines the value. */
    constructor (db: AttrDb, root: Tree)
      requires root == db.tree
      ensures this.db == db && this.root == root
    {
      this.db, this.root := db, root;
    }

    /** `getRoot`: a cursor that remembers nothing yet. */
    method GetRoot() returns (c: AttrCursor)
      requires db.Valid() && root == db.tree
      modifies db`cursors
      ensures db.Valid() && fresh(c) && db.cursors == old(db.cursors) + {c}
      ensures c.cache == this && c.parent == null && c.path == Root && c.entry.None?
      ensures c.Ready() && c.Value() == root(Root)
    {
      c := new AttrCursor(this, null, EPSILON, None);
      db.cursors := db.cursors + {c};
    }
  }

  /** What `maybeGetAttr` can do. */
  datatype Lookup = Threw | NoAttr | Found(cursor: AttrCursor)

  /** What looking an attribute up directly in the value does. */
  datatype DirectLookup = Throwing | NoSuchAttr | HasAttr

  function LookUpDirectly(v: Node, name: Symbol): DirectLookup {
    match v
    case Fails => Throwing
    case Aborts => Throwing
    case Set(names) => if name in names then HasAttr else NoSuchAttr
    case _ => NoSuchAttr
  }

  predicate SameAnswer(r: Lookup, d: DirectLookup) {
    match r
    case Threw => d == Throwing
    case NoAttr => d == NoSuchAttr
    case Found(_) => d == HasAttr
  }

  class AttrCursor {
    const cache: Cache
    const parent: AttrCursor?
    const name: Symbol
    /** `cachedValue`: the row this cursor has read or written, which may be stale. */
    var entry: Option<Entry>
    /** Whether that row comes from this cursor's own evaluation, not from the table. */
    ghost var evaluated: bool
    /** `getAttrPath`. */
    const path: Path

    constructor (cache: Cache, parent: AttrCursor?, name: Symbol, entry: Option<Entry>)
      ensures this.cache == cache && this.parent == parent && this.name == name && this.entry == entry && !evaluated
      ensures this.path == if parent == null then Root else Child(parent.path, name)
    {
      this.cache, this.parent, this.name, this.entry, this.evaluated := cache, parent, name, entry, false;
      this.path := if parent == null then Root else Child(parent.path, name);
    }

    /** The database is sound and this is one of its cursors. */
    ghost predicate Ready()
      reads this, cache.db, cache.db.cursors
    {
      cache.db.Valid() && this in cache.db.cursors
    }

    ghost function Value(): Node
      requires Ready()
      reads this, cache.db, cache.db.cursors
    {
      assert cache.db.CursorTrue(this);
      At(cache.db.tree, path).value
    }

    ghost function OwnKey(): Key
      requires parent != null ==> parent.entry.Some?
      reads this, parent
    {
      if parent == null then Key(0, EPSILON) else Key(parent.entry.value.id, name)
    }

    /** What the cursor will go by: what it remembers or, failing that, the row in the table. */
    ghost function Known(): Option<Entry>
      requires Ready()
      reads this, parent, cache.db, cache.db.cursors
    {
      assert cache.db.ParentKnown(this);
      if entry.Some? then entry else ReadBack(cache.db.Contents(), OwnKey())
    }

    /** The two situations in which the cache does not answer as the value would. */
    ghost predicate RootFailureKnown()
      requires Ready()
      reads this, parent, cache.db, cache.db.cursors
    {
      parent == null && Known().Some? && Known().value.cached.Failure?
    }

    ghost predicate ChildFailureKnown(child: Symbol)
      requires Ready()
      reads this, parent, cache.db, cache.db.cursors
    {
      && Known().Some? && Known().value.cached.Unknown?
      && Key(Known().value.id, child) in cache.db.rows
      && cache.db.rows[Key(Known().value.id, child)].tag == Failed
    }

    /** `getKey`. A child is only created once its parent knows its row, so the branch
        that would query the parent's row, and the assertion in it, are never reached. */
    method GetKey() returns (k: Key)
      requires Ready()
      ensures parent != null ==> parent.entry.Some?
      ensures k == OwnKey()
      ensures KeyPlaced(cache.db.Contents(), cache.db.tree, k, path)
    {
      assert cache.db.CursorTrue(this) && cache.db.ParentKnown(this);
      if parent == null {
        return Key(0, EPSILON);
      }
      assert cache.db.CursorTrue(parent);
      k := Key(parent.entry.value.id, name);
    }

    /** `getValue`: the attribute of the parent's value. */
    method GetValue() returns (v: Node)
      requires Ready()
      ensures Some(v) == At(cache.db.tree, path) && v == Value()
      decreases path
    {
      assert cache.db.CursorTrue(this) && cache.db.ParentKnown(this);
      if parent == null {
        return cache.root(Root);
      }
      assert cache.db.CursorTrue(parent);
      var up := parent.GetValue();
      assert name in up.names;
      v := cache.root(path);
    }

    /** `fetchCachedValue`; `failed` says that it threw. */
    method FetchCachedValue() returns (failed: bool)
      requires Ready()
      modifies this
      ensures Ready()
      ensures entry == old(Known())
      ensures evaluated == (old(entry).Some? && old(evaluated))
      ensures failed <==> entry.Some? && entry.value.cached.Failure? && parent != null
    {
      var db := cache.db;
      if entry.None? {
        var k := GetKey();
        entry := db.GetAttr(k);
        evaluated := false;
        assert entry.Some? ==> db.places[entry.value.id] == path;
      }
      failed := entry.Some? && entry.value.cached.Failure? && parent != null;
    }

    /** Write the cursor's own row and remember it. */
    method Remember(tag: Tag, cached: Cached) returns (id: AttrId)
      requires Ready()
      requires !tag.FullAttrs? && !tag.Missing? && !cached.Names?
      requires TagTrue(tag, Some(Value())) && CachedTrue(cached, Value(), true)
      modifies cache.db, this
      ensures Ready() && cache.db.cursors == old(cache.db.cursors)
      ensures entry == Some(Entry(id, cached)) && evaluated && id !in cache.db.fulls
      ensures Grows(old(cache.db.Contents()), cache.db.Contents())
      ensures parent != null ==> parent.entry.Some?
      ensures OwnKey() in cache.db.rows && cache.db.rows[OwnKey()].tag == tag
    {
      var k := GetKey();
      id := cache.db.Insert(k, tag, path);
      entry, evaluated := Some(Entry(id, cached)), true;
    }

    /** The table has a row with this tag for the cursor's own place. */
    ghost predicate RecordedAs(tag: Tag)
      reads this, parent, cache.db
    {
      && (parent != null ==> parent.entry.Some?)
      && OwnKey() in cache.db.rows && cache.db.rows[OwnKey()].tag == tag
    }

    /** `forceValue`: evaluate, and record what came of it, an evaluation error included.
        `None` is an exception. */
    method ForceValue() returns (r: Option<Node>)
      requires Ready()
      modifies cache.db, this
      ensures Ready() && cache.db.cursors == old(cache.db.cursors)
      ensures r == if IsThrown(Value()) then None else Some(Value())
      ensures Grows(old(cache.db.Contents()), cache.db.Contents())
      ensures old(entry).Some? ==> entry.Some?
      ensures Value().Set? || Value().Aborts? ==> entry == old(entry) && evaluated == old(evaluated)
      ensures Value().Fails? ==> entry.Some? && entry.value.cached.Failure? && RecordedAs(Failed)
      ensures Value().Int? && (old(entry).None? || old(entry).value.cached.Unknown?) ==>
        RecordedAs(IntRow(ToInt(Value().n)))
    {
      var v := GetValue();
      if v.Fails? {
        var _ := Remember(Failed, Failure);
        return None;
      }
      if v.Aborts? {
        return None;
      }
      if entry.None? || entry.value.cached.Unknown? {
        match v
        case Str(s) => var _ := Remember(StringRow(s), Text(s));
        case PathValue(abs, _) => var _ := Remember(StringRow(abs), Text(abs));
        case Bool(b) => var _ := Remember(BoolRow(b), Flag(b));
        case Int(n) => var _ := Remember(IntRow(ToInt(n)), Number(n));
        case Set(_) =>
        case Aborts =>
        case Other => var _ := Remember(Misc, Unsupported);
      }
      r := Some(v);
    }

    /** A new cursor for a child of this one. */
    method NewChild(child: Symbol, e: Option<Entry>) returns (c: AttrCursor)
      requires Ready() && entry.Some?
      requires Value().Set? && child in Value().names
      requires e.Some? ==> cache.db.EntryTrue(e.value, Child(path, child), false)
      modifies cache.db`cursors
      ensures Ready() && fresh(c) && cache.db.cursors == old(cache.db.cursors) + {c}
      ensures c.cache == cache && c.path == Child(path, child) && c.entry == e && c.parent == this && c.name == child
    {
      assert cache.db.CursorTrue(this);
      c := new AttrCursor(cache, this, child, e);
      cache.db.cursors := cache.db.cursors + {c};
    }

    /** `maybeGetAttr`. It answers as the value would, except in two situations: a root
        whose failure is on record looks like a set without attributes, and a child whose
        failure is on record below a placeholder is reported as an error at once. */
    method MaybeGetAttr(child: Symbol) returns (r: Lookup)
      requires Ready()
      modifies cache.db, this
      ensures Ready() && old(cache.db.cursors) <= cache.db.cursors
      ensures SameAnswer(r, LookUpDirectly(Value(), child)) <==>
        !old(RootFailureKnown()) && !old(ChildFailureKnown(child))
      ensures old(RootFailureKnown()) ==> Value().Fails? && r.NoAttr?
      ensures old(ChildFailureKnown(child)) ==>
        Value().Set? && child in Value().names && At(cache.db.tree, Child(path, child)) == Some(Fails) && r.Threw?
      ensures r.Found? ==>
        && r.cursor.cache == cache && r.cursor.path == Child(path, child)
        && r.cursor in cache.db.cursors && fresh(r.cursor)
      ensures Value().Fails? ==> entry.Some? && entry.value.cached.Failure?
      ensures r.Found? && old(Known()).None? ==> entry.Some? && entry.value.cached.Unknown? && NewBelow(r.cursor, child)
    {
      hide TableTrueBut;
      var failed := FetchCachedValue();
      if failed {
        return Threw;
      }
      if entry.Some? {
        var known := LookUpKnown(child);
        if known.Some? {
          return known.value;
        }
      }
      r := LookUpEvaluated(child);
    }

    /** A child opened by evaluating this cursor, with a placeholder for its row. */
    ghost predicate NewBelow(c: AttrCursor, child: Symbol)
      reads this, c
    {
      c.parent == this && c.name == child && c.entry.Some? && c.entry.value.cached.Unknown?
    }

    /** The answer the cache already has, if it has one. */
    method LookUpKnown(child: Symbol) returns (r: Option<Lookup>)
      requires Ready() && entry.Some?
      modifies cache.db`cursors
      ensures Ready() && old(cache.db.cursors) <= cache.db.cursors
      ensures r.Some? && entry.value.cached.Failure? ==> r.value.NoAttr?
      ensures r.Some? && !entry.value.cached.Failure? && !old(ChildFailureKnown(child)) ==>
        SameAnswer(r.value, LookUpDirectly(Value(), child))
      ensures old(ChildFailureKnown(child)) ==>
        Value().Set? && child in Value().names && At(cache.db.tree, Child(path, child)) == Some(Fails) &&
          r == Some(Threw)
      ensures r.None? ==> entry.value.cached.Unknown?
      ensures r.Some? && Value().Fails? ==> entry.value.cached.Failure?
      ensures r.Some? && r.value.Found? ==>
        (r.value.cursor.cache == cache && r.value.cursor.path == Child(path, child)
         && r.value.cursor in cache.db.cursors && fresh(r.value.cursor))
    {
      assert cache.db.CursorTrue(this);
      match entry.value.cached
      case Names(names) =>
        if child in names {
          var c := NewChild(child, None);
          return Some(Found(c));
        }
        return Some(NoAttr);
      case Unknown =>
        var k := Key(entry.value.id, child);
        var e := cache.db.GetAttr(k);
        if e.None? {
          return None;
        }
        ChildRow(child, e.value);
        if e.value.cached.Absent? {
          return Some(NoAttr);
        } else if e.value.cached.Failure? {
          return Some(Threw);
        }
        var c := NewChild(child, e);
        return Some(Found(c));
      case _ =>
        return Some(NoAttr);
    }

    /** The answer of the value itself, which is then recorded. */
    method LookUpEvaluated(child: Symbol) returns (r: Lookup)
      requires Ready() && (entry.Some? ==> entry.value.cached.Unknown?)
      modifies cache.db, this
      ensures Ready() && old(cache.db.cursors) <= cache.db.cursors
      ensures SameAnswer(r, LookUpDirectly(Value(), child))
      ensures r.Found? ==>
        && r.cursor.cache == cache && r.cursor.path == Child(path, child)
        && r.cursor in cache.db.cursors && fresh(r.cursor)
      ensures r.Found? ==> entry.Some? && entry.value.cached.Unknown? && NewBelow(r.cursor, child)
      ensures Value().Fails? ==> entry.Some? && entry.value.cached.Failure?
    {
      var v := ForceValue();
      if v.None? {
        return Threw;
      }
      if !v.value.Set? {
        return NoAttr;
      }
      if entry.None? {
        var _ := Remember(Placeholder, Unknown);
      }
      r := RecordChild(child);
    }

    /** Whether the set has the attribute goes into the table. */
    method RecordChild(child: Symbol) returns (r: Lookup)
      requires Ready() && entry.Some? && entry.value.cached.Unknown? && Value().Set?
      modifies cache.db
      ensures Ready() && old(cache.db.cursors) <= cache.db.cursors
      ensures SameAnswer(r, LookUpDirectly(Value(), child))
      ensures r.Found? ==>
        && r.cursor.cache == cache && r.cursor.path == Child(path, child)
        && r.cursor in cache.db.cursors && fresh(r.cursor)
      ensures r.Found? ==> entry.Some? && entry.value.cached.Unknown? && NewBelow(r.cursor, child)
    {
      assert cache.db.CursorTrue(this);
      var v := GetValue();
      var k := Key(entry.value.id, child);
      if child !in v.names {
        var _ := cache.db.Insert(k, Missing, Child(path, child));
        return NoAttr;
      }
      var id := cache.db.Insert(k, Placeholder, Child(path, child));
      var c := NewChild(child, Some(Entry(id, Unknown)));
      return Found(c);
    }

    /** What a row found below this cursor's own row says about the child. */
    lemma ChildRow(child: Symbol, e: Entry)
      requires Ready() && entry.Some? && entry.value.cached.Unknown?
      requires ReadBack(cache.db.Contents(), Key(entry.value.id, child)) == Some(e)
      ensures Value().Set?
      ensures e.id in cache.db.places && cache.db.places[e.id] == Child(path, child)
      ensures e.cached.Absent? <==> child !in Value().names
      ensures e.cached.Failure? ==> child in Value().names && At(cache.db.tree, Child(path, child)) == Some(Fails)
    {
      assert cache.db.CursorTrue(this);
      assert RowTrue(cache.db.Contents(), cache.db.tree, Key(entry.value.id, child));
    }

    /** The cursor will go by a string on record. */
    ghost predicate TextKnown()
      requires Ready()
      reads this, parent, cache.db, cache.db.cursors
    {
      Known().Some? && Known().value.cached.Text?
    }

    /** `getString`. A path is rendered one way when it is on record and another when it is
        evaluated. */
    method GetString() returns (r: Result<string>)
      requires Ready()
      modifies cache.db, this
      ensures Ready() && cache.db.cursors == old(cache.db.cursors)
      ensures Value().Str? ==> r == Ok(Value().s)
      ensures Value().PathValue? ==> r == Ok(if old(TextKnown()) then Value().abs else Value().shown)
      ensures !Value().Str? && !Value().PathValue? ==> r == Throws
      ensures Value().Fails? && old(Known()).Some? && old(Known()).value.cached.Unknown? ==> RecordedAs(Failed)
    {
      var failed := FetchCachedValue();
      if failed {
        return Throws;
      }
      assert cache.db.CursorTrue(this);
      if entry.Some? && !entry.value.cached.Unknown? {
        return if entry.value.cached.Text? then Ok(entry.value.cached.s) else Throws;
      }
      var v := ForceValue();
      if v.None? || !(v.value.Str? || v.value.PathValue?) {
        return Throws;
      }
      return Ok(if v.value.Str? then v.value.s else v.value.shown);
    }

    /** `getBool`. */
    method GetBool() returns (r: Result<bool>)
      requires Ready()
      modifies cache.db, this
      ensures Ready() && cache.db.cursors == old(cache.db.cursors)
      ensures r == if Value().Bool? then Ok(Value().b) else Throws
    {
      var failed := FetchCachedValue();
      if failed {
        return Throws;
      }
      assert cache.db.CursorTrue(this);
      if entry.Some? && !entry.value.cached.Unknown? {
        return if entry.value.cached.Flag? then Ok(entry.value.cached.b) else Throws;
      }
      var v := ForceValue();
      return if v.Some? && v.value.Bool? then Ok(v.value.b) else Throws;
    }

    /** The cursor will go by an integer that went through the table: one it has not evaluated
        itself. */
    ghost predicate StoredIntKnown()
      requires Ready()
      reads this, parent, cache.db, cache.db.cursors
    {
      Known().Some? && Known().value.cached.Number? && !(entry.Some? && evaluated)
    }

    /** `getInt`. An integer that went through the table comes back truncated to a C
        `int`, so the answer is the value's own exactly when it fits or did not. */
    method GetInt() returns (r: Result<int>)
      requires Ready()
      modifies cache.db, this
      ensures Ready() && cache.db.cursors == old(cache.db.cursors)
      ensures Value().Int? ==> r == Ok(if old(StoredIntKnown()) then ToInt(Value().n) else Value().n)
      ensures Value().Int? ==> (r == Ok(Value().n) <==> InInt(Value().n) || !old(StoredIntKnown()))
      ensures !Value().Int? ==> r == Throws
      ensures Value().Int? && old(Known()).None? ==> RecordedAs(IntRow(ToInt(Value().n)))
    {
      var failed := FetchCachedValue();
      if failed {
        return Throws;
      }
      assert cache.db.CursorTrue(this);
      if entry.Some? && !entry.value.cached.Unknown? {
        return if entry.value.cached.Number? then Ok(entry.value.cached.n) else Throws;
      }
      var v := ForceValue();
      return if v.Some? && v.value.Int? then Ok(v.value.n) else Throws;
    }

    /** `getAttrs`, as a set of names. */
    method GetAttrs() returns (r: Result<set<Symbol>>)
      requires Ready()
      modifies cache.db, this
      ensures Ready() && cache.db.cursors == old(cache.db.cursors)
      ensures r == if Value().Set? then Ok(Value().names) else Throws
    {
      var failed := FetchCachedValue();
      if failed {
        return Throws;
      }
      assert cache.db.CursorTrue(this);
      if entry.Some? && !entry.value.cached.Unknown? {
        return if entry.value.cached.Names? then Ok(entry.value.cached.names) else Throws;
      }
      var v := ForceValue();
      if v.None? || !v.value.Set? {
        return Throws;
      }
      RememberAttrs(v.value.names);
      r := Ok(v.value.names);
    }

    method RememberAttrs(names: set<Symbol>)
      requires Ready() && Value().Set? && names == Value().names
      modifies cache.db, this
      ensures Ready() && cache.db.cursors == old(cache.db.cursors)
    {
      hide TableTrueBut, NamesInserted, NamesUnder, KeyPlaced, At;
      var attrs := InSomeOrder(names);
      var k := GetKey();
      assert cache.db.CursorTrue(this);
      var id := cache.db.SetAttrs(k, attrs, path);
      entry, evaluated := Some(Entry(id, Names(names))), true;
    }
  }

  /** The names of a set as a list; the order does not reach any answer. */
  method InSomeOrder(names: set<Symbol>) returns (list: seq<Symbol>)
    ensures forall n :: n in list <==> n in names
  {
    list := [];
    var rest := names;
    while rest != {}
      invariant rest <= names
      invariant forall n :: n in list <==> n in names && n !in rest
      decreases rest
    {
      var n :| n in rest;
      list := list + [n];
      rest := rest - {n};
    }
  }

  /* Where the cache and the value part ways: one run for each of the three situations */

  /** A root that fails: the second lookup finds the failure on record and takes the root
      for a set without attributes. */
  method FailedRootForgets() returns (first: Lookup, second: Lookup)
    ensures first.Threw? && second.NoAttr?
  {
    var tree := (path: Path) => Fails;
    var db := new AttrDb(tree);
    var session := new Cache(db, tree);
    var root := session.GetRoot();
    first := root.MaybeGetAttr(1);
    second := root.MaybeGetAttr(1);
  }

  /** An attribute that fails: looking it up is fine until it has been forced once. */
  method FailedChildIsReportedEarly() returns (first: Lookup, second: Lookup)
    ensures first.Found? && second.Threw?
  {
    var tree := (path: Path) => if path.Root? then Set({1}) else Fails;
    var db := new AttrDb(tree);
    var session := new Cache(db, tree);
    var root := session.GetRoot();
    first := root.MaybeGetAttr(1);
    var _ := first.cursor.GetString();
    assert first.cursor.OwnKey() == Key(root.entry.value.id, 1);
    second := root.MaybeGetAttr(1);
  }

  /** A session that reads an integer another session has stored. */
  method ReadStoredInt(db: AttrDb, tree: Tree, n: int) returns (r: Result<int>)
    requires db.Valid() && db.tree == tree && tree(Root) == Int(n)
    requires Key(0, EPSILON) in db.rows && db.rows[Key(0, EPSILON)].tag == IntRow(ToInt(n))
    modifies db
    ensures r == Ok(ToInt(n))
  {
    hide TableTrueBut, ToInt;
    var session := new Cache(db, tree);
    var root := session.GetRoot();
    assert root.StoredIntKnown();
    r := root.GetInt();
  }

  /** An integer beyond a C `int`: the next session reads it back truncated. */
  method LargeIntIsTruncated() returns (first: Result<int>, second: Result<int>)
    ensures first == Ok(0x8000_0000) && second == Ok(-0x8000_0000)
  {
    assert ToInt(0x8000_0000) == -0x8000_0000;
    hide TableTrueBut, ToInt;
    var tree := (path: Path) => Int(0x8000_0000);
    var db := new AttrDb(tree);
    var session := new Cache(db, tree);
    var root := session.GetRoot();
    first := root.GetInt();
    second := ReadStoredInt(db, tree, 0x8000_0000);
  }

  /* Whole runs */

  datatype Op =
    | OpenSession
    | AskAttr(cursor: nat, name: Symbol)
    | AskString(cursor: nat)
    | AskBool(cursor: nat)
    | AskInt(cursor: nat)
    | AskAttrs(cursor: nat)

  datatype Answer =
    | Nothing
    | Attr(path: Path, name: Symbol, found: DirectLookup)
    | AString(path: Path, s: Result<string>)
    | ABool(path: Path, b: Result<bool>)
    | AnInt(path: Path, n: Result<int>)
    | SomeNames(path: Path, names: Result<set<Symbol>>)

  /** The answer is the one direct evaluation gives, up to the two recorded-failure cases,
      the rendering of paths and integers beyond a C `int`. */
  ghost predicate Truthful(tree: Tree, a: Answer) {
    match a
    case Nothing => true
    case Attr(path, name, found) =>
      At(tree, path).Some? &&
      var v := At(tree, path).value;
      || found == LookUpDirectly(v, name)
      || (path == Root && v.Fails? && found == NoSuchAttr)
      || (At(tree, Child(path, name)) == Some(Fails) && found == Throwing)
    case AString(path, s) =>
      At(tree, path).Some? &&
      (match At(tree, path).value
       case Str(t) => s == Ok(t)
       case PathValue(abs, shown) => s == Ok(abs) || s == Ok(shown)
       case _ => s == Throws)
    case ABool(path, b) =>
      At(tree, path).Some? &&
      b == (match At(tree, path).value case Bool(x) => Ok(x) case _ => Throws)
    case AnInt(path, n) =>
      At(tree, path).Some? &&
      (match At(tree, path).value
       case Int(i) => n == Ok(i) || (!InInt(i) && n == Ok(ToInt(i)))
       case _ => n == Throws)
    case SomeNames(path, names) =>
      At(tree, path).Some? &&
      names == (match At(tree, path).value case Set(all) => Ok(all) case _ => Throws)
  }

  /** The answer is exactly the one direct evaluation gives. */
  ghost predicate Direct(tree: Tree, a: Answer) {
    match a
    case Nothing => true
    case Attr(path, name, found) => At(tree, path).Some? && found == LookUpDirectly(At(tree, path).value, name)
    case AString(path, s) =>
      At(tree, path).Some? &&
      s == (match At(tree, path).value case Str(t) => Ok(t) case PathValue(_, shown) => Ok(shown) case _ => Throws)
    case ABool(path, b) =>
      At(tree, path).Some? && b == (match At(tree, path).value case Bool(x) => Ok(x) case _ => Throws)
    case AnInt(path, n) =>
      At(tree, path).Some? && n == (match At(tree, path).value case Int(i) => Ok(i) case _ => Throws)
    case SomeNames(path, names) =>
      At(tree, path).Some? &&
      names == (match At(tree, path).value case Set(all) => Ok(all) case _ => Throws)
  }

  /** The values for which the cache may part ways with direct evaluation: attributes of a
      failing root, failing attributes, strings of paths and integers beyond a C `int`. */
  ghost predicate Excepted(tree: Tree, a: Answer) {
    match a
    case Attr(path, name, _) =>
      At(tree, path).Some? &&
      var v := At(tree, path).value;
      (path == Root && v.Fails?) || At(tree, Child(path, name)) == Some(Fails)
    case AString(path, _) => At(tree, path).Some? && At(tree, path).value.PathValue?
    case AnInt(path, _) =>
      At(tree, path).Some? && At(tree, path).value.Int? && !InInt(At(tree, path).value.n)
    case _ => false
  }

  /** An answer to an operation on a cursor at a path: of the kind asked for, for the name asked
      for, at that path. */
  ghost predicate AnswersAt(op: Op, a: Answer, path: Path) {
    match op
    case OpenSession => a == Nothing
    case AskAttr(_, name) => a.Attr? && a.path == path && a.name == name
    case AskString(_) => a.AString? && a.path == path
    case AskBool(_) => a.ABool? && a.path == path
    case AskInt(_) => a.AnInt? && a.path == path
    case AskAttrs(_) => a.SomeNames? && a.path == path
  }

  /** A cursor that was never opened gets no answer. */
  ghost predicate AnswersFor(op: Op, a: Answer, paths: seq<Path>) {
    if op.OpenSession? || op.cursor >= |paths| then a == Nothing else AnswersAt(op, a, paths[op.cursor])
  }

  /** The paths of the cursors opened by the first `n` operations: a session opens one at its
      root, and a lookup that finds an attribute one for it. */
  ghost function Opened(ops: seq<Op>, log: seq<Answer>, n: nat): seq<Path>
    requires n <= |ops| && n <= |log|
  {
    if n == 0 then []
    else
      Opened(ops, log, n - 1) +
      if ops[n - 1].OpenSession? then [Root]
      else if log[n - 1].Attr? && log[n - 1].found.HasAttr? then [Child(log[n - 1].path, log[n - 1].name)]
      else []
  }

  lemma {:induction false} OpenedKept(ops: seq<Op>, log: seq<Answer>, a: Answer, n: nat)
    requires n <= |ops| && n <= |log|
    ensures Opened(ops, log + [a], n) == Opened(ops, log, n)
  {
    if n > 0 {
      OpenedKept(ops, log, a, n - 1);
    }
  }

  lemma NothingTruthful(tree: Tree)
    ensures Truthful(tree, Nothing) && Direct(tree, Nothing)
  {
  }

  lemma TruthfulIsDirect(tree: Tree, a: Answer)
    requires Truthful(tree, a)
    ensures Direct(tree, a) || Excepted(tree, a)
  {
  }

  /** Where the cache is about to part ways with the value: a root whose failure is on record,
      an attribute whose failure is on record below a placeholder, a path on record that is
      shown otherwise, or an integer beyond a C `int` that went through the table. */
  ghost predicate PartsWays(c: AttrCursor, op: Op)
    requires c.Ready()
    reads c, c.parent, c.cache.db, c.cache.db.cursors
  {
    match op
    case AskAttr(_, name) => c.RootFailureKnown() || c.ChildFailureKnown(name)
    case AskString(_) => c.TextKnown() && c.Value().PathValue? && c.Value().abs != c.Value().shown
    case AskInt(_) => c.StoredIntKnown() && c.Value().Int? && !InInt(c.Value().n)
    case _ => false
  }

  /** One operation on an open cursor: the answer is direct exactly when the cache is not about
      to part ways with the value. */
  method Ask(db: AttrDb, tree: Tree, c: AttrCursor, op: Op) returns (answer: Answer, child: Option<AttrCursor>)
    requires db.Valid() && tree == db.tree && c in db.cursors && c.cache.db == db
    modifies db, c
    ensures db.Valid() && old(db.cursors) <= db.cursors
    ensures Truthful(tree, answer)
    ensures Direct(tree, answer) <==> !old(PartsWays(c, op))
    ensures AnswersAt(op, answer, c.path)
    ensures child.Some? <==> answer.Attr? && answer.found.HasAttr?
    ensures child.Some? ==> child.value.path == Child(answer.path, answer.name)
    ensures child.Some? ==> fresh(child.value) && child.value in db.cursors && child.value.cache.db == db
  {
    hide TableTrueBut;
    assert db.CursorTrue(c);
    child := None;
    match op
    case OpenSession => answer := Nothing;
    case AskAttr(_, name) =>
      var r := c.MaybeGetAttr(name);
      if r.Found? {
        child := Some(r.cursor);
      }
      answer := Attr(c.path, name, if r.Threw? then Throwing else if r.NoAttr? then NoSuchAttr else HasAttr);
    case AskString(_) =>
      var r := c.GetString();
      answer := AString(c.path, r);
    case AskBool(_) =>
      var r := c.GetBool();
      answer := ABool(c.path, r);
    case AskInt(_) =>
      var r := c.GetInt();
      answer := AnInt(c.path, r);
    case AskAttrs(_) =>
      var r := c.GetAttrs();
      answer := SomeNames(c.path, r);
  }

  /** Everything the log of a run promises, for the operations so far. */
  ghost predicate LogRight(tree: Tree, ops: seq<Op>, log: seq<Answer>, parted: seq<bool>) {
    && |log| == |parted| && |log| <= |ops|
    && (forall i :: 0 <= i < |log| ==> Truthful(tree, log[i]))
    && (forall i :: 0 <= i < |log| ==> Direct(tree, log[i]) || Excepted(tree, log[i]))
    && (forall i :: 0 <= i < |log| ==> (Direct(tree, log[i]) <==> !parted[i]))
    && (forall i: nat :: i < |log| ==> AnswersFor(ops[i], log[i], Opened(ops, log, i)))
  }

  lemma LogGrows(tree: Tree, ops: seq<Op>, log: seq<Answer>, parted: seq<bool>, a: Answer, p: bool)
    requires LogRight(tree, ops, log, parted) && |log| < |ops|
    requires Truthful(tree, a) && (Direct(tree, a) || Excepted(tree, a)) && (Direct(tree, a) <==> !p)
    requires AnswersFor(ops[|log|], a, Opened(ops, log, |log|))
    ensures LogRight(tree, ops, log + [a], parted + [p])
    ensures Opened(ops, log + [a], |log| + 1) == Opened(ops, log, |log|) +
      if ops[|log|].OpenSession? then [Root]
      else if a.Attr? && a.found.HasAttr? then [Child(a.path, a.name)]
      else []
  {
    OpenedLast(ops, log, a);
    hide Truthful, Direct, Excepted, AnswersFor, Opened;
    var log' := log + [a];
    forall i: nat | i < |log'|
      ensures AnswersFor(ops[i], log'[i], Opened(ops, log', i))
    {
      OpenedKept(ops, log, a, i);
      assert i < |log| ==> log'[i] == log[i];
    }
    forall i | 0 <= i < |log'|
      ensures Truthful(tree, log'[i])
      ensures Direct(tree, log'[i]) || Excepted(tree, log'[i])
      ensures Direct(tree, log'[i]) <==> !(parted + [p])[i]
    {
      assert i < |log| ==> log'[i] == log[i] && (parted + [p])[i] == parted[i];
    }
  }

  lemma OpenedLast(ops: seq<Op>, log: seq<Answer>, a: Answer)
    requires |log| < |ops|
    ensures Opened(ops, log + [a], |log| + 1) == Opened(ops, log, |log|) +
      if ops[|log|].OpenSession? then [Root]
      else if a.Attr? && a.found.HasAttr? then [Child(a.path, a.name)]
      else []
  {
    OpenedKept(ops, log, a, |log|);
  }

  lemma NoLog(tree: Tree, ops: seq<Op>)
    ensures LogRight(tree, ops, [], []) && Opened(ops, [], 0) == []
  {
  }

  lemma NoAnswer(op: Op, paths: seq<Path>)
    requires op.OpenSession? || op.cursor >= |paths|
    ensures AnswersFor(op, Nothing, paths)
  {
  }

  /** Any sequence of operations, by any number of sessions on one database, in any
      interleaving: the database stays sound and every answer is truthful; `parted` keeps, for
      every operation, whether the cache was about to part ways with the value when it began,
      and exactly then its answer is not direct. A cursor is named by its position among those
      opened so far. */
  method Run(db: AttrDb, tree: Tree, ops: seq<Op>) returns (log: seq<Answer>, ghost parted: seq<bool>)
    requires db.Valid() && tree == db.tree
    modifies db
    ensures db.Valid()
    ensures |log| == |ops| && forall i :: 0 <= i < |log| ==> Truthful(tree, log[i])
    ensures forall i :: 0 <= i < |log| ==> Direct(tree, log[i]) || Excepted(tree, log[i])
    ensures |parted| == |ops| && forall i :: 0 <= i < |log| ==> (Direct(tree, log[i]) <==> !parted[i])
    ensures forall i: nat :: i < |log| ==> AnswersFor(ops[i], log[i], Opened(ops, log, i))
  {
    hide TableTrueBut, Truthful, Direct, Excepted, PartsWays, AnswersAt, LogRight, Opened;
    log, parted := [], [];
    var cursors: seq<AttrCursor> := [];
    NoLog(tree, ops);
    for i := 0 to |ops|
      invariant db.Valid()
      invariant |log| == i && LogRight(tree, ops, log, parted)
      invariant forall c :: c in cursors ==> fresh(c) && c in db.cursors && c.cache.db == db
      invariant |cursors| == |Opened(ops, log, i)|
      invariant forall k :: 0 <= k < |cursors| ==> cursors[k].path == Opened(ops, log, i)[k]
    {
      var answer := Nothing;
      ghost var parts := false;
      NothingTruthful(tree);
      if ops[i].OpenSession? {
        NoAnswer(ops[i], Opened(ops, log, i));
        var session := new Cache(db, tree);
        var root := session.GetRoot();
        cursors := cursors + [root];
      } else if ops[i].cursor < |cursors| {
        var c := cursors[ops[i].cursor];
        assert c in cursors;
        parts := PartsWays(c, ops[i]);
        var child;
        answer, child := Ask(db, tree, c, ops[i]);
        cursors := if child.Some? then cursors + [child.value] else cursors;
      } else {
        NoAnswer(ops[i], Opened(ops, log, i));
      }
      TruthfulIsDirect(tree, answer);
      LogGrows(tree, ops, log, parted, answer, parts);
      log, parted := log + [answer], parted + [parts];
    }
    LogSays(tree, ops, log, parted);
  }

  lemma LogSays(tree: Tree, ops: seq<Op>, log: seq<Answer>, parted: seq<bool>)
    requires LogRight(tree, ops, log, parted)
    ensures |log| == |parted| <= |ops|
    ensures forall i :: 0 <= i < |log| ==> Truthful(tree, log[i])
    ensures forall i :: 0 <= i < |log| ==> Direct(tree, log[i]) || Excepted(tree, log[i])
    ensures forall i :: 0 <= i < |log| ==> (Direct(tree, log[i]) <==> !parted[i])
    ensures forall i: nat :: i < |log| ==> AnswersFor(ops[i], log[i], Opened(ops, log, i))
  {
  }
}
