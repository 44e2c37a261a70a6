/** The variables of a static frame, `StaticEnv::vars`: sorting, deduplicating, finding. */
module StaticVars {
  import opened Common

  /** A name with the displacement it resolves to. */
  datatype VarSlot = VarSlot(name: Symbol, displ: nat)

  ghost predicate SortedVars(vars: seq<VarSlot>) {
    forall i, j :: 0 <= i < j < |vars| ==> vars[i].name < vars[j].name
  }

  ghost predicate WeaklySorted(vars: seq<VarSlot>) {
    forall i, j :: 0 <= i < j < |vars| ==> vars[i].name <= vars[j].name
  }

  /* Looking a name up */

  function FindName(vars: seq<VarSlot>, name: Symbol): (r: Option<nat>)
    ensures r.Some? ==> VarSlot(name, r.value) in vars
    ensures r.None? ==> forall v :: v in vars ==> v.name != name
  {
    if vars == [] then None
    else if vars[0].name == name then Some(vars[0].displ)
    else FindName(vars[1..], name)
  }

  lemma {:induction false} LookupAt(vars: seq<VarSlot>, name: Symbol, at: nat)
    requires SortedVars(vars) && at <= |vars|
    requires forall i :: 0 <= i < at ==> vars[i].name < name
    requires forall i :: at <= i < |vars| ==> name <= vars[i].name
    ensures FindName(vars, name) == if at < |vars| && vars[at].name == name then Some(vars[at].displ) else None
  {
    if at > 0 {
      LookupAt(vars[1..], name, at - 1);
    } else if vars != [] && vars[0].name != name {
      LookupAt(vars[1..], name, 0);
    }
  }

  /** The index of the entry of a name, if there is one. */
  ghost predicate IsEntry(vars: seq<VarSlot>, i: Option<nat>, name: Symbol) {
    && (i.Some? ==> i.value < |vars| && vars[i.value].name == name)
    && (i.None? ==> forall k :: 0 <= k < |vars| ==> vars[k].name != name)
  }

  /** `StaticEnv::find`: bisection over the sorted variables of one frame. */
  method FindVar(vars: seq<VarSlot>, name: Symbol) returns (i: Option<nat>)
    requires SortedVars(vars)
    ensures IsEntry(vars, i, name)
    ensures FindName(vars, name) == if i.Some? then Some(vars[i.value].displ) else None
  {
    var lo, hi := 0, |vars|;
    while lo < hi
      invariant 0 <= lo <= hi <= |vars|
      invariant forall i :: 0 <= i < lo ==> vars[i].name < name
      invariant forall i :: hi <= i < |vars| ==> name <= vars[i].name
    {
      var mid := (lo + hi) / 2;
      if vars[mid].name < name {
        lo := mid + 1;
      } else {
        hi := mid;
      }
    }
    LookupAt(vars, name, lo);
    i := if lo < |vars| && vars[lo].name == name then Some(lo) else None;
  }

  /* The last entry of a name */

  /** The displacement of the last entry of a name. */
  ghost function LastNamed(vars: seq<VarSlot>, name: Symbol): Option<nat> {
    if vars == [] then None
    else if vars[|vars| - 1].name == name then Some(vars[|vars| - 1].displ)
    else LastNamed(vars[..|vars| - 1], name)
  }

  /** Two lists have the same last entries. */
  ghost predicate SameLast(vars: seq<VarSlot>, vars': seq<VarSlot>) {
    forall name :: LastNamed(vars, name) == LastNamed(vars', name)
  }

  lemma SameLastPush(vars: seq<VarSlot>, vars': seq<VarSlot>, v: VarSlot)
    requires SameLast(vars, vars')
    ensures SameLast(vars + [v], vars' + [v])
  {
    forall name
      ensures LastNamed(vars + [v], name) == LastNamed(vars' + [v], name)
    {
      LastNamedPush(vars, v, name);
      LastNamedPush(vars', v, name);
    }
  }

  /** An entry hides an earlier one of its name. */
  lemma SameLastHide(vars: seq<VarSlot>, u: VarSlot, v: VarSlot)
    requires u.name == v.name
    ensures SameLast(vars + [v], (vars + [u]) + [v])
  {
    forall name
      ensures LastNamed(vars + [v], name) == LastNamed((vars + [u]) + [v], name)
    {
      LastNamedPush(vars, v, name);
      LastNamedPush(vars + [u], v, name);
      LastNamedPush(vars, u, name);
    }
  }

  lemma LastNamedPush(vars: seq<VarSlot>, v: VarSlot, name: Symbol)
    ensures LastNamed(vars + [v], name) == if v.name == name then Some(v.displ) else LastNamed(vars, name)
  {
    assert (vars + [v])[..|vars|] == vars;
  }

  lemma {:induction false} LastNamedNone(vars: seq<VarSlot>, name: Symbol)
    requires forall i :: 0 <= i < |vars| ==> vars[i].name != name
    ensures LastNamed(vars, name) == None
  {
    if vars != [] {
      LastNamedNone(vars[..|vars| - 1], name);
    }
  }

  lemma {:induction false} LastNamedAt(vars: seq<VarSlot>, i: nat)
    requires i < |vars| && forall j :: i < j < |vars| ==> vars[j].name != vars[i].name
    ensures LastNamed(vars, vars[i].name) == Some(vars[i].displ)
  {
    if i < |vars| - 1 {
      LastNamedAt(vars[..|vars| - 1], i);
    }
  }

  lemma {:induction false} EraseOther(vars: seq<VarSlot>, i: nat, name: Symbol)
    requires i < |vars| && vars[i].name != name
    ensures LastNamed(vars[..i] + vars[i + 1..], name) == LastNamed(vars, name)
  {
    var n := |vars| - 1;
    if i == n {
      assert vars[..i] + vars[i + 1..] == vars[..n];
    } else {
      assert vars[..i] + vars[i + 1..] == (vars[..n][..i] + vars[..n][i + 1..]) + [vars[n]];
      EraseOther(vars[..n], i, name);
      LastNamedPush(vars[..n][..i] + vars[..n][i + 1..], vars[n], name);
    }
  }

  /** In a sorted list the entry of a name is its last. */
  lemma EntryIsLast(vars: seq<VarSlot>, i: Option<nat>, name: Symbol)
    requires SortedVars(vars) && IsEntry(vars, i, name)
    ensures LastNamed(vars, name) == if i.Some? then Some(vars[i.value].displ) else None
  {
    if i.Some? {
      LastNamedAt(vars, i.value);
    } else {
      LastNamedNone(vars, name);
    }
  }

  /* `StaticEnv::sort`, a stable sort by name */

  function InsertVar(v: VarSlot, vars: seq<VarSlot>): (r: seq<VarSlot>)
    ensures multiset(r) == multiset{v} + multiset(vars)
    ensures |r| == |vars| + 1
  {
    if vars == [] || v.name <= vars[0].name then
      [v] + vars
    else
      assert vars == [vars[0]] + vars[1..];
      [vars[0]] + InsertVar(v, vars[1..])
  }

  function SortVars(vars: seq<VarSlot>): (r: seq<VarSlot>)
    ensures multiset(r) == multiset(vars)
    ensures |r| == |vars|
  {
    if vars == [] then
      []
    else
      assert vars == [vars[0]] + vars[1..];
      InsertVar(vars[0], SortVars(vars[1..]))
  }

  lemma {:induction false} InsertedAt(v: VarSlot, vars: seq<VarSlot>, j: nat)
    requires j <= |vars|
    ensures InsertVar(v, vars)[j] == v || InsertVar(v, vars)[j] in vars
  {
    var r := InsertVar(v, vars);
    hide InsertVar;
    assert r[j] in multiset(r);
  }

  lemma {:induction false} InsertSorted(v: VarSlot, vars: seq<VarSlot>)
    requires SortedVars(vars) && forall i :: 0 <= i < |vars| ==> vars[i].name != v.name
    ensures SortedVars(InsertVar(v, vars))
  {
    if vars != [] && v.name > vars[0].name {
      var rest := InsertVar(v, vars[1..]);
      InsertSorted(v, vars[1..]);
      forall j | 0 <= j < |rest|
        ensures vars[0].name < rest[j].name
      {
        hide InsertVar;
        InsertedAt(v, vars[1..], j);
      }
    }
  }

  lemma {:induction false} SortSorted(vars: seq<VarSlot>)
    requires forall i, j :: 0 <= i < j < |vars| ==> vars[i].name != vars[j].name
    ensures SortedVars(SortVars(vars))
  {
    if vars != [] {
      var rest := SortVars(vars[1..]);
      SortSorted(vars[1..]);
      forall i | 0 <= i < |rest|
        ensures rest[i].name != vars[0].name
      {
        assert rest[i] in multiset(rest);
        assert rest[i] in vars[1..];
      }
      InsertSorted(vars[0], rest);
    }
  }

  /** An entry in front counts only if there is no later one of its name. */
  lemma {:induction false} LastNamedCons(v: VarSlot, vars: seq<VarSlot>, name: Symbol)
    ensures LastNamed([v] + vars, name)
         == if LastNamed(vars, name).Some? then LastNamed(vars, name)
            else if v.name == name then Some(v.displ)
            else None
  {
    if vars == [] {
      assert [v] + vars == [] + [v];
      LastNamedPush([], v, name);
    } else {
      var before, last := vars[..|vars| - 1], vars[|vars| - 1];
      assert [v] + vars == ([v] + before) + [last];
      LastNamedPush([v] + before, last, name);
      LastNamedCons(v, before, name);
    }
  }

  lemma {:induction false} InsertVarSorted(v: VarSlot, vars: seq<VarSlot>)
    requires WeaklySorted(vars)
    ensures WeaklySorted(InsertVar(v, vars))
  {
    if vars != [] && v.name > vars[0].name {
      var rest := InsertVar(v, vars[1..]);
      InsertVarSorted(v, vars[1..]);
      forall j | 0 <= j < |rest|
        ensures vars[0].name <= rest[j].name
      {
        assert rest[j] in multiset(rest);
        assert rest[j] == v || rest[j] in vars[1..];
      }
    }
  }

  lemma {:induction false} InsertVarLast(v: VarSlot, vars: seq<VarSlot>, name: Symbol)
    requires WeaklySorted(vars)
    ensures LastNamed(InsertVar(v, vars), name) == LastNamed([v] + vars, name)
  {
    if vars != [] && v.name > vars[0].name {
      var rest := vars[1..];
      InsertVarLast(v, rest, name);
      assert vars == [vars[0]] + rest;
      LastNamedCons(vars[0], InsertVar(v, rest), name);
      LastNamedCons(v, rest, name);
      LastNamedCons(v, vars, name);
      LastNamedCons(vars[0], rest, name);
    }
  }

  /** Sorting is stable: the last entry of a name stays the last. */
  lemma {:induction false} SortKeepsLast(vars: seq<VarSlot>, name: Symbol)
    ensures WeaklySorted(SortVars(vars)) && LastNamed(SortVars(vars), name) == LastNamed(vars, name)
  {
    if vars != [] {
      var rest := vars[1..];
      assert vars == [vars[0]] + rest;
      SortKeepsLast(rest, name);
      InsertVarSorted(vars[0], SortVars(rest));
      InsertVarLast(vars[0], SortVars(rest), name);
      LastNamedCons(vars[0], SortVars(rest), name);
      LastNamedCons(vars[0], rest, name);
    }
  }

  lemma SortStable(vars: seq<VarSlot>)
    ensures WeaklySorted(SortVars(vars)) && SameLast(SortVars(vars), vars)
  {
    SortKeepsLast(vars, 0);
    forall name
      ensures LastNamed(SortVars(vars), name) == LastNamed(vars, name)
    {
      SortKeepsLast(vars, name);
    }
  }

  /* Removing duplicates */

  /** `StaticEnv::deduplicate`, in place: of each run of equal names the last entry stays. */
  method Deduplicate(src: seq<VarSlot>) returns (vars: seq<VarSlot>)
    requires WeaklySorted(src)
    ensures SortedVars(vars) && SameLast(vars, src)
  {
    vars := src;
    var it, jt := 0, 0;
    while jt != |src|
      invariant it <= jt <= |src| && |vars| == |src| && vars[jt..] == src[jt..]
      invariant SortedVars(vars[..it])
      invariant SameLast(vars[..it], src[..jt])
      invariant jt < |src| ==> forall k :: 0 <= k < it ==> vars[k].name < src[jt].name
      decreases |src| - jt
    {
      assert vars[jt] == vars[jt..][0];
      DedupStep(vars, src, it, jt);
      vars := vars[it := vars[jt]];
      jt := jt + 1;
      while jt != |src| && vars[it].name == vars[jt].name
        invariant it < jt <= |src| && |vars| == |src| && vars[jt..] == src[jt..]
        invariant SortedVars(vars[..it + 1]) && vars[it] == src[jt - 1]
        invariant SameLast(vars[..it + 1], src[..jt])
        decreases |src| - jt
      {
        assert vars[jt] == vars[jt..][0];
        DedupReplace(vars, src, it, jt);
        vars := vars[it := vars[jt]];
        jt := jt + 1;
      }
      assert jt < |src| ==> vars[jt..][0] == src[jt];
      it := it + 1;
    }
    vars := vars[..it];
    assert src[..jt] == src;
  }

  /** Writing the first entry of a run. */
  lemma DedupStep(vars: seq<VarSlot>, src: seq<VarSlot>, it: nat, jt: nat)
    requires it <= jt < |src| == |vars|
    requires vars[jt..] == src[jt..] && SortedVars(vars[..it])
    requires SameLast(vars[..it], src[..jt])
    requires forall k :: 0 <= k < it ==> vars[k].name < src[jt].name
    ensures var next := vars[it := vars[jt]];
      && vars[jt] == src[jt] && next[jt + 1..] == src[jt + 1..] && SortedVars(next[..it + 1])
      && SameLast(next[..it + 1], src[..jt + 1])
  {
    assert vars[jt] == vars[jt..][0] == src[jt];
    var next := vars[it := vars[jt]];
    assert next[..it + 1] == vars[..it] + [src[jt]] && src[..jt + 1] == src[..jt] + [src[jt]];
    assert next[jt + 1..] == vars[jt..][1..] == src[jt + 1..];
    SameLastPush(vars[..it], src[..jt], src[jt]);
  }

  /** Overwriting an entry by the next one of its run. */
  lemma DedupReplace(vars: seq<VarSlot>, src: seq<VarSlot>, it: nat, jt: nat)
    requires it < jt < |src| == |vars| && vars[jt..] == src[jt..] && SortedVars(vars[..it + 1])
    requires vars[it].name == src[jt].name
    requires SameLast(vars[..it + 1], src[..jt])
    ensures var next := vars[it := vars[jt]];
      && vars[jt] == src[jt] && next[jt + 1..] == src[jt + 1..] && SortedVars(next[..it + 1])
      && SameLast(next[..it + 1], src[..jt + 1])
  {
    assert vars[jt] == vars[jt..][0] == src[jt];
    var next := vars[it := vars[jt]];
    assert next[..it + 1] == vars[..it] + [src[jt]] && src[..jt + 1] == src[..jt] + [src[jt]];
    assert vars[..it + 1] == vars[..it] + [vars[it]];
    assert next[jt + 1..] == vars[jt..][1..] == src[jt + 1..];
    SameLastHide(vars[..it], vars[it], src[jt]);
    SameLastPush(vars[..it + 1], src[..jt], src[jt]);
  }
}
