/** The scope of the interactive evaluator: one frame that grows, and its static side. */
module Repl {
  import opened Bindings
  import opened Common
  import opened StaticVars

  /* The history of the scope */

  /** The slot of the most recent binding of a name. */
  ghost function LastSlot(history: seq<Attr>, name: Symbol): (d: Option<nat>)
    ensures d.Some? ==> d.value < |history| && history[d.value].name == name
    ensures d.Some? ==> forall k :: d.value < k < |history| ==> history[k].name != name
    ensures d.None? ==> forall k :: 0 <= k < |history| ==> history[k].name != name
  {
    if history == [] then None
    else if history[|history| - 1].name == name then Some(|history| - 1)
    else LastSlot(history[..|history| - 1], name)
  }

  lemma LastSlotPush(history: seq<Attr>, a: Attr, name: Symbol)
    ensures LastSlot(history + [a], name) == if a.name == name then Some(|history|) else LastSlot(history, name)
  {
    assert (history + [a])[..|history|] == history;
  }

  /** The static side agrees with the history. */
  ghost predicate Resolves(vars: seq<VarSlot>, history: seq<Attr>) {
    forall name :: LastNamed(vars, name) == LastSlot(history, name)
  }

  lemma ResolvesPush(vars: seq<VarSlot>, history: seq<Attr>, a: Attr)
    requires Resolves(vars, history)
    ensures Resolves(vars + [VarSlot(a.name, |history|)], history + [a])
  {
    forall name
      ensures LastNamed(vars + [VarSlot(a.name, |history|)], name) == LastSlot(history + [a], name)
    {
      LastNamedPush(vars, VarSlot(a.name, |history|), name);
      LastSlotPush(history, a, name);
    }
  }

  /** The entries without the old one of a name. */
  function Without(vars: seq<VarSlot>, i: Option<nat>): seq<VarSlot>
    requires i.Some? ==> i.value < |vars|
  {
    if i.Some? then vars[..i.value] + vars[i.value + 1..] else vars
  }

  lemma WithoutEntry(vars: seq<VarSlot>, i: Option<nat>, name: Symbol)
    requires SortedVars(vars) && IsEntry(vars, i, name)
    ensures SortedVars(Without(vars, i)) && WeaklySorted(Without(vars, i))
    ensures forall k :: 0 <= k < |Without(vars, i)| ==> Without(vars, i)[k].name != name
  {
  }

  /** Erasing the old entry of a name and adding a new one. */
  lemma Rebind(vars: seq<VarSlot>, i: Option<nat>, history: seq<Attr>, a: Attr)
    requires SortedVars(vars) && Resolves(vars, history) && IsEntry(vars, i, a.name)
    ensures var sorted := SortVars(Without(vars, i) + [VarSlot(a.name, |history|)]);
      SortedVars(sorted) && Resolves(sorted, history + [a])
  {
    var kept := Without(vars, i);
    var v := VarSlot(a.name, |history|);
    WithoutEntry(vars, i, a.name);
    SortSorted(kept + [v]);
    hide SortVars, SortedVars, WeaklySorted;
    forall name
      ensures LastNamed(SortVars(kept + [v]), name) == LastSlot(history + [a], name)
    {
      SortKeepsLast(kept + [v], name);
      LastNamedPush(kept, v, name);
      LastSlotPush(history, a, name);
      if i.Some? && name != a.name {
        EraseOther(vars, i.value, name);
      }
    }
  }

  /** The entry is erased from the sorted vector, if there is one, and the new one sorted in. */
  method Filed(vars: seq<VarSlot>, i: Option<nat>, v: VarSlot) returns (r: seq<VarSlot>)
    requires i.Some? ==> i.value < |vars|
    ensures r == SortVars(Without(vars, i) + [v])
  {
    r := vars;
    if i.Some? {
      r := r[..i.value] + r[i.value + 1..];
    }
    r := r + [v];
    r := SortVars(r);
  }

  /** The names bound so far. */
  ghost function Names(history: seq<Attr>): set<Symbol> {
    set k | 0 <= k < |history| :: history[k].name
  }

  lemma NamesPush(history: seq<Attr>, a: Attr)
    ensures Names(history + [a]) == Names(history) + {a.name}
  {
    assert forall k :: 0 <= k < |history| ==> (history + [a])[k] == history[k];
    assert (history + [a])[|history|] == a;
  }

  /* The session */

  /** `NixRepl::envSize`. */
  const ENV_SIZE := 32768

  class NixRepl {
    const baseNames: set<Symbol>
    /** The frame, and how much of it is in use. */
    var env: array<Option<Value>>
    var displ: nat
    /** `staticEnv->vars`. */
    var vars: seq<VarSlot>
    var varNames: set<Symbol>
    /** What each slot was bound to, in order. */
    ghost var history: seq<Attr>

    ghost predicate Valid()
      reads this, env
    {
      && env.Length == ENV_SIZE && displ == |history| <= ENV_SIZE
      && (forall d :: 0 <= d < displ ==> env[d] == Some(history[d].value))
      && SortedVars(vars) && Resolves(vars, history)
      && varNames == baseNames + Names(history)
    }

    constructor (baseNames: set<Symbol>)
      ensures Valid() && history == [] && fresh(env) && this.baseNames == baseNames
    {
      this.baseNames := baseNames;
      env := new Option<Value>[ENV_SIZE](_ => None);
      displ, vars, varNames, history := 0, [], baseNames, [];
    }

    /** `initEnv`: a new frame; the old one is left as it is for what still refers to it. */
    method InitEnv()
      modifies this
      ensures Valid() && history == [] && fresh(env)
    {
      env := new Option<Value>[ENV_SIZE](_ => None);
      displ, vars, varNames, history := 0, [], baseNames, [];
    }

    /** `addAttrsToScope`, once the set has been forced and listed. A set that does not fit
        with a slot to spare is refused as a whole. */
    method AddAttrsToScope(attrs: seq<Attr>) returns (full: bool)
      requires Valid()
      modifies this, env
      ensures Valid() && env == old(env)
      ensures full <==> old(displ) + |attrs| >= ENV_SIZE
      ensures history == if full then old(history) else old(history) + attrs
      ensures forall d :: 0 <= d < old(displ) ==> env[d] == old(env[d])
      ensures full ==> vars == old(vars) && env[..] == old(env[..])
    {
      full := displ + |attrs| >= ENV_SIZE;
      if full {
        return;
      }
      var unsorted := vars;
      for k := 0 to |attrs|
        invariant env == old(env) && displ == old(displ) + k && vars == old(vars)
        invariant history == old(history) + attrs[..k]
        invariant forall d :: 0 <= d < displ ==> env[d] == Some(history[d].value)
        invariant Resolves(unsorted, history) && varNames == baseNames + Names(history)
      {
        ResolvesPush(unsorted, history, attrs[k]);
        NamesPush(history, attrs[k]);
        assert old(history) + attrs[..k + 1] == history + [attrs[k]];
        unsorted := unsorted + [VarSlot(attrs[k].name, displ)];
        env[displ] := Some(attrs[k].value);
        displ := displ + 1;
        varNames := varNames + {attrs[k].name};
        history := history + [attrs[k]];
      }
      SortStable(unsorted);
      vars := Deduplicate(SortVars(unsorted));
      assert attrs[..|attrs|] == attrs;
    }

    /** `addVarToScope`. */
    method AddVarToScope(name: Symbol, v: Value) returns (full: bool)
      requires Valid()
      modifies this, env
      ensures Valid() && env == old(env)
      ensures full <==> old(displ) == ENV_SIZE
      ensures history == if full then old(history) else old(history) + [Attr(name, v)]
      ensures forall d :: 0 <= d < old(displ) ==> env[d] == old(env[d])
      ensures full ==> vars == old(vars) && env[..] == old(env[..])
    {
      hide SortedVars, Resolves, Names, SortVars, IsEntry, LastSlot, FindName, Without;
      full := displ >= ENV_SIZE;
      if full {
        return;
      }
      var oldVar := FindVar(vars, name);
      Rebind(vars, oldVar, history, Attr(name, v));
      NamesPush(history, Attr(name, v));
      vars := Filed(vars, oldVar, VarSlot(name, displ));
      env[displ] := Some(v);
      displ := displ + 1;
      varNames := varNames + {name};
      history := history + [Attr(name, v)];
    }

    /** What binding a variable in the scope records: its displacement, that of the most recent
        binding of the name. */
    method BindName(name: Symbol) returns (d: Option<nat>)
      requires Valid()
      ensures d == LastSlot(history, name)
      ensures d.Some? ==> d.value < displ && env[d.value] == Some(history[d.value].value)
    {
      var i := FindVar(vars, name);
      EntryIsLast(vars, i, name);
      d := if i.Some? then Some(vars[i.value].displ) else None;
    }

    /** One command. The slots in use are written once: in the frame there was, they keep their
        values. */
    method Execute(command: Command) returns (r: Option<Reference>)
      requires Valid()
      modifies this, env
      ensures Valid() && history == NextHistory(old(history), command)
      ensures if env == old(env) then displ >= old(displ) else fresh(env)
      ensures forall d :: 0 <= d < old(displ) ==> old(env)[d] == old(env[d])
      ensures Evaluates(r, Denoted(command, history)) && (r.Some? ==> r.value.env == env && r.value.displ < displ)
    {
      r := None;
      match command {
        case Reset =>
          InitEnv();
        case Load(attrs) =>
          if attrs.Some? {
            var full := AddAttrsToScope(attrs.value);
          }
        case Assign(name, v) =>
          var full := AddVarToScope(name, v);
        case Mention(name) =>
          var d := BindName(name);
          r := if d.Some? then Some(Reference(env, d.value)) else None;
      }
    }

    /** Every reference recorded evaluates to its value, and those into the current frame are
        to slots in use. */
    ghost predicate Held(refs: seq<Option<Reference>>, values: seq<Option<Value>>)
      reads this, set k | 0 <= k < |refs| && refs[k].Some? :: refs[k].value.env
    {
      && |refs| == |values|
      && (forall k :: 0 <= k < |refs| ==> Evaluates(refs[k], values[k]))
      && forall k :: 0 <= k < |refs| && refs[k].Some? && refs[k].value.env == env ==> refs[k].value.displ < displ
    }

    /** One command of a session: the references recorded before still hold. */
    method Enter(command: Command, refs: seq<Option<Reference>>, ghost values: seq<Option<Value>>)
      returns (r: Option<Reference>)
      requires Valid() && Held(refs, values)
      modifies this, env
      ensures Valid() && history == NextHistory(old(history), command)
      ensures env == old(env) || fresh(env)
      ensures Held(refs + [r], values + [Denoted(command, history)])
    {
      hide Valid, Denoted, NextHistory;
      r := Execute(command);
    }

    /** A whole session. What an expression was bound to when it was read is what it denotes at
        the end: the most recent binding of the name at that time, whatever has been added,
        rebound or reset since. */
    method Session(commands: seq<Command>) returns (refs: seq<Option<Reference>>)
      requires Valid() && history == []
      modifies this, env
      ensures Valid() && history == HistoryAfter(commands, |commands|)
      ensures |refs| == |commands|
      ensures forall k :: 0 <= k < |commands| ==>
        Evaluates(refs[k], Denoted(commands[k], HistoryAfter(commands, k + 1)))
    {
      hide Valid, Held, ValuesAfter, HistoryAfter, NextHistory, Denoted;
      refs := [];
      NothingHeld(commands);
      for n := 0 to |commands|
        invariant Valid() && history == HistoryAfter(commands, n) && |refs| == n
        invariant env == old(env) || fresh(env)
        invariant Held(refs, ValuesAfter(commands, n))
      {
        var r := Enter(commands[n], refs, ValuesAfter(commands, n));
        OneMore(commands, n);
        refs := refs + [r];
      }
      AllHeld(refs, commands);
    }

    lemma NothingHeld(commands: seq<Command>)
      ensures Held([], ValuesAfter(commands, 0)) && HistoryAfter(commands, 0) == []
    {
    }

    lemma AllHeld(refs: seq<Option<Reference>>, commands: seq<Command>)
      requires |refs| == |commands| && Held(refs, ValuesAfter(commands, |commands|))
      ensures forall k :: 0 <= k < |commands| ==>
                Evaluates(refs[k], Denoted(commands[k], HistoryAfter(commands, k + 1)))
    {
      hide Denoted, HistoryAfter, ValuesAfter, Evaluates;
    }
  }

  /** What the user does: reload, add a set that may fail to be forced, assign a variable, or
      enter an expression that mentions one. */
  datatype Command = Reset | Load(attrs: Option<seq<Attr>>) | Assign(name: Symbol, v: Value) | Mention(name: Symbol)

  /** A variable bound in a scope: its frame and its displacement there. */
  datatype Reference = Reference(env: array<Option<Value>>, displ: nat)

  /** The bindings in force after one more command, oldest first. */
  ghost function NextHistory(history: seq<Attr>, command: Command): seq<Attr> {
    match command
    case Reset => []
    case Load(attrs) =>
      if attrs.None? || |history| + |attrs.value| >= ENV_SIZE then history else history + attrs.value
    case Assign(name, v) => if |history| >= ENV_SIZE then history else history + [Attr(name, v)]
    case Mention(_) => history
  }

  ghost function HistoryAfter(commands: seq<Command>, n: nat): seq<Attr>
    requires n <= |commands|
  {
    if n == 0 then [] else NextHistory(HistoryAfter(commands, n - 1), commands[n - 1])
  }

  /** The value a mention denotes: that of the most recent binding of the name. */
  ghost function Denoted(command: Command, history: seq<Attr>): Option<Value> {
    if !command.Mention? then None
    else
      var slot := LastSlot(history, command.name);
      if slot.None? then None else Some(history[slot.value].value)
  }

  /** What each of the first `n` commands denotes when it is entered. */
  ghost function ValuesAfter(commands: seq<Command>, n: nat): (values: seq<Option<Value>>)
    requires n <= |commands|
    ensures |values| == n
    ensures forall k :: 0 <= k < n ==> values[k] == Denoted(commands[k], HistoryAfter(commands, k + 1))
  {
    if n == 0 then [] else ValuesAfter(commands, n - 1) + [Denoted(commands[n - 1], HistoryAfter(commands, n))]
  }

  lemma OneMore(commands: seq<Command>, n: nat)
    requires n < |commands|
    ensures HistoryAfter(commands, n + 1) == NextHistory(HistoryAfter(commands, n), commands[n])
    ensures ValuesAfter(commands, n + 1)
         == ValuesAfter(commands, n) + [Denoted(commands[n], HistoryAfter(commands, n + 1))]
  {
    hide Denoted, NextHistory;
  }

  /** A reference evaluates to a value; there is none exactly when there is no value. */
  ghost predicate Evaluates(r: Option<Reference>, v: Option<Value>)
    reads if r.Some? then {r.value.env} else {}
  {
    if r.None? then v.None?
    else v.Some? && r.value.displ < r.value.env.Length && r.value.env[r.value.displ] == v
  }
}
