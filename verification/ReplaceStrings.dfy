/** `builtins.replaceStrings`: an index loop with a cache of the replacements used. */
module ReplaceStrings {
  import opened Common
  import opened Outcomes

  /** An element of a string context. */
  type Item = nat

  /** What forcing a string gives: its characters and its context. */
  datatype Text = Text(chars: string, context: set<Item>)

  datatype Result = Ok(text: Text) | Failed(error: Exception) | LengthMismatch

  /** `s.compare(p, f.size(), f) == 0`. */
  predicate MatchesAt(s: string, p: nat, f: string) {
    p + |f| <= |s| && s[p..p + |f|] == f
  }

  /** The first pattern, from the `k`th on, that matches at a position. */
  ghost function FirstMatch(from: seq<string>, s: string, p: nat, k: nat): (i: Option<nat>)
    ensures i.Some? ==> k <= i.value < |from| && MatchesAt(s, p, from[i.value])
    ensures forall j :: k <= j < (if i.Some? then i.value else |from|) ==> !MatchesAt(s, p, from[j])
    decreases |from| - k
  {
    if k >= |from| then None
    else if MatchesAt(s, p, from[k]) then Some(k)
    else FirstMatch(from, s, p, k + 1)
  }

  /** The character at a position, and nothing at the end. */
  function CharAt(s: string, p: nat): string {
    if p < |s| then [s[p]] else ""
  }

  /** Where the search goes on after a position. */
  ghost function NextPosition(from: seq<string>, s: string, p: nat): (q: nat)
    ensures p < q
    ensures p <= |s| ==> q <= |s| + 1
  {
    var i := FirstMatch(from, s, p, 0);
    if i.Some? && from[i.value] != "" then p + |from[i.value]| else p + 1
  }

  /* The recursive meaning */

  /** The patterns used from a position on. */
  ghost function Used(from: seq<string>, s: string, p: nat): (u: set<nat>)
    ensures forall i :: i in u ==> i < |from|
    decreases |s| + 1 - p
  {
    if p > |s| then {}
    else
      var i := FirstMatch(from, s, p, 0);
      (if i.Some? then {i.value} else {}) + Used(from, s, NextPosition(from, s, p))
  }

  /** What the text from a position on is replaced by, given a text for every pattern. */
  ghost function Replaced(from: seq<string>, to: seq<string>, s: string, p: nat): string
    requires |from| == |to|
    decreases |s| + 1 - p
  {
    if p > |s| then ""
    else
      var i := FirstMatch(from, s, p, 0);
      (if i.Some? then to[i.value] else "")
      + (if i.Some? && from[i.value] != "" then "" else CharAt(s, p))
      + Replaced(from, to, s, NextPosition(from, s, p))
  }

  /** Only the texts of the patterns used matter. */
  lemma {:induction false} OnlyUsedMatter(from: seq<string>, to: seq<string>, to': seq<string>, s: string, p: nat)
    requires |from| == |to| == |to'| && forall i :: i in Used(from, s, p) ==> to[i] == to'[i]
    ensures Replaced(from, to, s, p) == Replaced(from, to', s, p)
    decreases |s| + 1 - p
  {
    if p <= |s| {
      OnlyUsedMatter(from, to, to', s, NextPosition(from, s, p));
    }
  }

  /** What one position of the text contributes. */
  ghost function Contribution(from: seq<string>, to: seq<string>, s: string, p: nat): string
    requires |from| == |to|
  {
    var i := FirstMatch(from, s, p, 0);
    (if i.Some? then to[i.value] else "") + if i.Some? && from[i.value] != "" then "" else CharAt(s, p)
  }

  lemma ReplacedNext(from: seq<string>, to: seq<string>, s: string, p: nat)
    requires |from| == |to| && p <= |s|
    ensures Replaced(from, to, s, p) == Contribution(from, to, s, p) + Replaced(from, to, s, NextPosition(from, s, p))
  {
  }

  function Rest(s: string, p: nat): string {
    if p <= |s| then s[p..] else ""
  }

  lemma NextBound(from: seq<string>, s: string, p: nat)
    requires p <= |s|
    ensures p < NextPosition(from, s, p) <= |s| + 1
    ensures var i := FirstMatch(from, s, p, 0);
      NextPosition(from, s, p) == if i.Some? && from[i.value] != "" then p + |from[i.value]| else p + 1
  {
  }

  lemma RestCons(s: string, p: nat)
    requires p <= |s|
    ensures CharAt(s, p) + Rest(s, p + 1) == Rest(s, p)
  {
  }

  lemma RestMatch(s: string, p: nat, f: string)
    requires MatchesAt(s, p, f)
    ensures f + Rest(s, p + |f|) == Rest(s, p)
  {
    assert s[p..] == s[p..p + |f|] + s[p + |f|..];
  }

  lemma SelfContribution(from: seq<string>, s: string, p: nat)
    requires p <= |s|
    ensures Contribution(from, from, s, p) + Rest(s, NextPosition(from, s, p)) == Rest(s, p)
  {
    hide Rest, CharAt;
    var i := FirstMatch(from, s, p, 0);
    if i.Some? && from[i.value] != "" {
      RestMatch(s, p, from[i.value]);
      assert from[i.value] + "" == from[i.value];
    } else {
      RestCons(s, p);
      assert "" + CharAt(s, p) == CharAt(s, p);
    }
  }

  /** Replacing every pattern by itself changes nothing. */
  lemma {:induction false} Identity(from: seq<string>, s: string, p: nat)
    requires p <= |s| + 1
    ensures Replaced(from, from, s, p) == Rest(s, p)
    decreases |s| + 1 - p
  {
    if p <= |s| {
      hide Replaced, NextPosition, Contribution;
      Identity(from, s, NextPosition(from, s, p));
      ReplacedNext(from, from, s, p);
      SelfContribution(from, s, p);
    } else {
      assert Replaced(from, from, s, p) == "";
    }
  }

  /** Text in which nothing matches is left alone. */
  lemma {:induction false} NothingUsed(from: seq<string>, to: seq<string>, s: string, p: nat)
    requires |from| == |to| && p <= |s| + 1 && Used(from, s, p) == {}
    ensures Replaced(from, to, s, p) == Rest(s, p)
  {
    OnlyUsedMatter(from, to, from, s, p);
    Identity(from, s, p);
  }

  /* One nonempty pattern: splitting and joining */

  /** The pieces between the occurrences of a pattern, from left to right; `start` is where the
      current piece begins. */
  ghost function Pieces(f: string, s: string, start: nat, p: nat): seq<string>
    requires f != "" && start <= p <= |s|
    decreases |s| - p
  {
    if p == |s| then [s[start..]]
    else if MatchesAt(s, p, f) then [s[start..p]] + Pieces(f, s, p + |f|, p + |f|)
    else Pieces(f, s, start, p + 1)
  }

  ghost function Join(sep: string, pieces: seq<string>): string {
    if pieces == [] then ""
    else if |pieces| == 1 then pieces[0]
    else pieces[0] + sep + Join(sep, pieces[1..])
  }

  lemma OneStep(f: string, t: string, s: string, p: nat)
    requires f != "" && p <= |s|
    ensures Replaced([f], [t], s, p)
         == if p == |s| then ""
            else if MatchesAt(s, p, f) then t + Replaced([f], [t], s, p + |f|)
            else [s[p]] + Replaced([f], [t], s, p + 1)
  {
    hide Replaced;
    var from := [f];
    assert FirstMatch(from, s, p, 0) == if MatchesAt(s, p, f) then Some(0) else None;
    ReplacedNext(from, [t], s, p);
    assert t + "" == t && "" + CharAt(s, p) == CharAt(s, p);
    if p == |s| {
      AtEnd(from, [t], s);
    }
  }

  lemma AtEnd(from: seq<string>, to: seq<string>, s: string)
    requires |from| == |to|
    ensures Replaced(from, to, s, |s| + 1) == ""
  {
  }

  /** With one nonempty pattern, replacing is splitting at it and joining with the other. */
  lemma {:induction false} ReplaceIsJoin(f: string, t: string, s: string, start: nat, p: nat)
    requires f != "" && start <= p <= |s|
    ensures s[start..p] + Replaced([f], [t], s, p) == Join(t, Pieces(f, s, start, p))
    decreases |s| - p
  {
    hide Replaced;
    OneStep(f, t, s, p);
    var before, after := s[start..p], Replaced([f], [t], s, p);
    if p == |s| {
      assert s[start..] == before == before + after;
    } else if MatchesAt(s, p, f) {
      var q := p + |f|;
      ReplaceIsJoin(f, t, s, q, q);
      PiecesSome(f, s, q, q);
      JoinCons(t, before, Pieces(f, s, q, q));
      hide Join, Pieces, MatchesAt;
      assert s[q..q] + Replaced([f], [t], s, q) == Replaced([f], [t], s, q);
      assert before + (t + Replaced([f], [t], s, q)) == before + t + Replaced([f], [t], s, q);
    } else {
      ReplaceIsJoin(f, t, s, start, p + 1);
      assert s[start..p + 1] == before + [s[p]];
      assert before + ([s[p]] + Replaced([f], [t], s, p + 1)) == s[start..p + 1] + Replaced([f], [t], s, p + 1);
    }
  }

  lemma JoinCons(sep: string, first: string, rest: seq<string>)
    requires rest != []
    ensures Join(sep, [first] + rest) == first + sep + Join(sep, rest)
  {
    assert ([first] + rest)[1..] == rest;
  }

  lemma {:induction false} PiecesSome(f: string, s: string, start: nat, p: nat)
    requires f != "" && start <= p <= |s|
    ensures Pieces(f, s, start, p) != []
    decreases |s| - p
  {
    if p < |s| && !MatchesAt(s, p, f) {
      PiecesSome(f, s, start, p + 1);
    }
  }

  /* The empty pattern */

  /** A text before every character and at the end. */
  ghost function Interleaved(t: string, s: string): string {
    if s == "" then t else t + [s[0]] + Interleaved(t, s[1..])
  }

  /** With the empty pattern alone, the replacement comes before every character and once more
      at the end. */
  lemma {:induction false} EmptyPattern(t: string, s: string, p: nat)
    requires p <= |s|
    ensures Replaced([""], [t], s, p) == Interleaved(t, s[p..])
    decreases |s| - p
  {
    hide Replaced;
    ReplacedNext([""], [t], s, p);
    assert MatchesAt(s, p, "");
    if p == |s| {
      AtEnd([""], [t], s);
      assert t + "" + "" == t;
    } else {
      EmptyPattern(t, s, p + 1);
      assert s[p..][1..] == s[p + 1..];
    }
  }

  /* The loop */

  /** The replacements used are the ones that may throw. */
  ghost function CharsOf(to: seq<Outcome<Text, Exception>>, n: nat): (r: seq<string>)
    requires n <= |to|
    ensures |r| == n && forall i :: 0 <= i < n ==> r[i] == if to[i].Done? then to[i].value.chars else ""
  {
    if n == 0 then []
    else CharsOf(to, n - 1) + [if to[n - 1].Done? then to[n - 1].value.chars else ""]
  }

  /** Every replacement in a set of patterns evaluates. */
  ghost predicate AllDone(to: seq<Outcome<Text, Exception>>, u: set<nat>) {
    forall i :: i in u ==> i < |to| && to[i].Done?
  }

  /** An item comes from the context of one of these replacements. */
  ghost predicate FromContexts(to: seq<Outcome<Text, Exception>>, u: set<nat>, c: Item) {
    exists i :: i in u && i < |to| && to[i].Done? && c in to[i].value.context
  }

  /** The position at which evaluation fails: the first one whose pattern's replacement
      throws. */
  ghost function FirstFailure(
      from: seq<string>, to: seq<Outcome<Text, Exception>>, s: string, p: nat): Option<Exception>
    requires |from| == |to|
    decreases |s| + 1 - p
  {
    if p > |s| then None
    else
      var i := FirstMatch(from, s, p, 0);
      if i.Some? && to[i.value].Throws? then Some(to[i.value].error)
      else FirstFailure(from, to, s, NextPosition(from, s, p))
  }

  /** It fails exactly when a replacement that is used throws. */
  lemma {:induction false} FailsExactly(from: seq<string>, to: seq<Outcome<Text, Exception>>, s: string, p: nat)
    requires |from| == |to|
    ensures FirstFailure(from, to, s, p) == None <==> AllDone(to, Used(from, s, p))
    decreases |s| + 1 - p
  {
    if p <= |s| {
      FailsExactly(from, to, s, NextPosition(from, s, p));
      var i := FirstMatch(from, s, p, 0);
      assert i.Some? ==> i.value in Used(from, s, p);
      assert forall j :: j in Used(from, s, NextPosition(from, s, p)) ==> j in Used(from, s, p);
    }
  }

  /** What is written, with what is still to come, is the whole result. */
  ghost predicate Written(from: seq<string>, to: seq<string>, s: string, p: nat, res: string) {
    |from| == |to| && res + Replaced(from, to, s, p) == Replaced(from, to, s, 0)
  }

  lemma WriteNext(from: seq<string>, to: seq<string>, s: string, p: nat, res: string)
    requires Written(from, to, s, p, res) && p <= |s|
    ensures Written(from, to, s, NextPosition(from, s, p), res + Contribution(from, to, s, p))
  {
    hide Replaced, NextPosition, Contribution;
    ReplacedNext(from, to, s, p);
    Associative(res, Contribution(from, to, s, p), Replaced(from, to, s, NextPosition(from, s, p)));
  }

  lemma Associative(a: string, b: string, c: string)
    ensures a + (b + c) == a + b + c
  {
  }

  /** The texts cached are those of patterns already used, with their contexts, and nothing
      used before failed. */
  ghost predicate Tracked(from: seq<string>, to: seq<Outcome<Text, Exception>>, s: string, p: nat,
                          cache: map<nat, string>, added: set<Item>)
  {
    && |from| == |to|
    && Used(from, s, 0) == cache.Keys + Used(from, s, p)
    && FirstFailure(from, to, s, 0) == FirstFailure(from, to, s, p)
    && CacheOk(to, cache, added)
  }

  ghost predicate CacheOk(to: seq<Outcome<Text, Exception>>, cache: map<nat, string>, added: set<Item>) {
    && (forall i :: i in cache ==> i < |to| && to[i].Done? && cache[i] == to[i].value.chars)
    && (forall c :: c in added <==> FromContexts(to, cache.Keys, c))
  }

  /** One replacement, from the cache or evaluated and cached. */
  method Replacement(to: seq<Outcome<Text, Exception>>, i: nat, cache: map<nat, string>, added: set<Item>)
    returns (text: Outcome<string, Exception>, cache': map<nat, string>, added': set<Item>)
    requires i < |to|
    requires CacheOk(to, cache, added)
    ensures text.Done? <==> to[i].Done?
    ensures text.Throws? ==> text.error == to[i].error
    ensures text.Done? ==> text.value == to[i].value.chars && cache'.Keys == cache.Keys + {i}
    ensures text.Done? ==> CacheOk(to, cache', added')
  {
    cache', added' := cache, added;
    if i in cache {
      text := Done(cache[i]);
    } else if to[i].Throws? {
      text := Throws(to[i].error);
    } else {
      text := Done(to[i].value.chars);
      cache' := cache[i := to[i].value.chars];
      added' := added + to[i].value.context;
      forall c
        ensures c in added' <==> FromContexts(to, cache'.Keys, c)
      {
        if FromContexts(to, cache.Keys, c) {
          var j :| j in cache.Keys && j < |to| && to[j].Done? && c in to[j].value.context;
          assert j in cache'.Keys;
        }
        if c in to[i].value.context {
          assert i in cache'.Keys;
        }
      }
    }
  }

  lemma TrackFound(from: seq<string>, to: seq<Outcome<Text, Exception>>, s: string, p: nat, cache: map<nat, string>,
                   added: set<Item>, i: nat, cache': map<nat, string>, added': set<Item>)
    requires Tracked(from, to, s, p, cache, added) && p <= |s| && FirstMatch(from, s, p, 0) == Some(i)
    requires i < |to| && to[i].Done? && cache'.Keys == cache.Keys + {i} && CacheOk(to, cache', added')
    ensures Tracked(from, to, s, NextPosition(from, s, p), cache', added')
  {
    hide CacheOk;
    assert Used(from, s, p) == {i} + Used(from, s, NextPosition(from, s, p));
  }

  lemma TrackNotFound(from: seq<string>, to: seq<Outcome<Text, Exception>>, s: string, p: nat, cache: map<nat, string>,
                      added: set<Item>)
    requires Tracked(from, to, s, p, cache, added) && p <= |s| && FirstMatch(from, s, p, 0) == None
    ensures Tracked(from, to, s, NextPosition(from, s, p), cache, added)
  {
    hide CacheOk;
    assert Used(from, s, p) == {} + Used(from, s, NextPosition(from, s, p));
  }

  /** `prim_replaceStrings`, with the lists and the third argument forced: the text replaced
      from left to right, the first listed pattern winning, and the contexts of exactly the
      replacements used; it fails as the first used replacement that throws. */
  method ReplaceAll(from: seq<string>, to: seq<Outcome<Text, Exception>>, s: Text) returns (r: Result)
    requires |from| == |to|
    ensures r.Ok? <==> AllDone(to, Used(from, s.chars, 0))
    ensures r.Ok? ==> r.text.chars == Replaced(from, CharsOf(to, |to|), s.chars, 0)
    ensures r.Ok? ==> forall c :: c in r.text.context <==>
                                    c in s.context || FromContexts(to, Used(from, s.chars, 0), c)
    ensures !r.Ok? ==> r.Failed? && FirstFailure(from, to, s.chars, 0) == Some(r.error)
  {
    hide Written, Tracked, Used, FirstFailure, NextPosition, Replaced, CacheOk;
    var chars := s.chars;
    ghost var texts := CharsOf(to, |to|);
    var res, cache: map<nat, string>, added: set<Item> := "", map[], {};
    var p := 0;
    Start(from, to, chars);
    while p <= |chars|
      invariant p <= |chars| + 1 && Written(from, texts, chars, p, res)
      invariant Tracked(from, to, chars, p, cache, added)
      decreases |chars| + 1 - p
    {
      var found := FindPattern(from, chars, p);
      NextBound(from, chars, p);
      WriteNext(from, texts, chars, p, res);
      TrackedOk(from, to, chars, p, cache, added);
      if found.Some? {
        var i := found.value;
        var text, cache', added' := Replacement(to, i, cache, added);
        if text.Throws? {
          FailsHere(from, to, chars, p);
          return Failed(text.error);
        }
        TrackFound(from, to, chars, p, cache, added, i, cache', added');
        cache, added := cache', added';
        if from[i] == "" {
          Associative(res, text.value, CharAt(chars, p));
          res := res + text.value;
          res := res + CharAt(chars, p);
          p := p + 1;
        } else {
          assert text.value + "" == text.value;
          res := res + text.value;
          p := p + |from[i]|;
        }
      } else {
        TrackNotFound(from, to, chars, p, cache, added);
        assert "" + CharAt(chars, p) == CharAt(chars, p);
        res := res + CharAt(chars, p);
        p := p + 1;
      }
    }
    End(from, to, chars, p, res, cache, added);
    r := Ok(Text(res, s.context + added));
  }

  lemma TrackedOk(from: seq<string>, to: seq<Outcome<Text, Exception>>, s: string, p: nat, cache: map<nat, string>,
                  added: set<Item>)
    requires Tracked(from, to, s, p, cache, added)
    ensures CacheOk(to, cache, added) && FirstFailure(from, to, s, 0) == FirstFailure(from, to, s, p)
  {
  }

  lemma FailsHere(from: seq<string>, to: seq<Outcome<Text, Exception>>, s: string, p: nat)
    requires |from| == |to| && p <= |s|
    requires var i := FirstMatch(from, s, p, 0); i.Some? && to[i.value].Throws?
    ensures FirstFailure(from, to, s, p) == Some(to[FirstMatch(from, s, p, 0).value].error)
  {
  }

  lemma Start(from: seq<string>, to: seq<Outcome<Text, Exception>>, s: string)
    requires |from| == |to|
    ensures Written(from, CharsOf(to, |to|), s, 0, "") && Tracked(from, to, s, 0, map[], {})
    ensures FirstFailure(from, to, s, 0) == None <==> AllDone(to, Used(from, s, 0))
  {
    hide Replaced, Used, FirstFailure;
    FailsExactly(from, to, s, 0);
  }

  lemma End(from: seq<string>, to: seq<Outcome<Text, Exception>>, s: string, p: nat, res: string,
            cache: map<nat, string>, added: set<Item>)
    requires Written(from, CharsOf(to, |to|), s, p, res) && Tracked(from, to, s, p, cache, added) && p > |s|
    ensures res == Replaced(from, CharsOf(to, |to|), s, 0)
    ensures FirstFailure(from, to, s, 0) == None
    ensures forall c :: c in added <==> FromContexts(to, Used(from, s, 0), c)
  {
    assert res + "" == res;
    assert Used(from, s, 0) == cache.Keys;
  }

  /** The first pattern that matches at a position. */
  method FindPattern(from: seq<string>, s: string, p: nat) returns (i: Option<nat>)
    ensures i == FirstMatch(from, s, p, 0)
  {
    var k := 0;
    while k < |from| && !MatchesAt(s, p, from[k])
      invariant k <= |from| && FirstMatch(from, s, p, 0) == FirstMatch(from, s, p, k)
    {
      k := k + 1;
    }
    i := if k < |from| then Some(k) else None;
  }

  /** The patterns in order, up to the first that throws. */
  method ForcePatterns(from: seq<Outcome<string, Exception>>) returns (r: Outcome<seq<string>, Exception>)
    ensures r.Done? <==> forall i :: 0 <= i < |from| ==> from[i].Done?
    ensures r.Done? ==> |r.value| == |from| && forall i :: 0 <= i < |from| ==> from[i] == Done(r.value[i])
    ensures r.Throws? ==> exists i :: 0 <= i < |from| && from[i] == Throws(r.error)
                                   && forall j :: 0 <= j < i ==> from[j].Done?
  {
    var texts := [];
    for i := 0 to |from|
      invariant |texts| == i && forall j :: 0 <= j < i ==> from[j] == Done(texts[j])
    {
      if from[i].Throws? {
        return Throws(from[i].error);
      }
      texts := texts + [from[i].value];
    }
    r := Done(texts);
  }

  ghost predicate AllForced(from: seq<Outcome<string, Exception>>) {
    forall i :: 0 <= i < |from| ==> from[i].Done?
  }

  /** The whole primop on three arguments: patterns are forced first, in order, then the text,
      and replacements as they are used. */
  method ReplaceStrings(
      from: seq<Outcome<string, Exception>>, to: seq<Outcome<Text, Exception>>, s: Outcome<Text, Exception>)
    returns (r: Result)
    ensures r.LengthMismatch? <==> |from| != |to|
    ensures |from| == |to| && !AllForced(from) ==>
              r.Failed? && exists i :: 0 <= i < |from| && from[i] == Throws(r.error) && AllForced(from[..i])
    ensures |from| == |to| && AllForced(from) && s.Throws? ==> r == Failed(s.error)
    ensures |from| == |to| && AllForced(from) && s.Done? && !r.Ok? ==>
              r.Failed? && FirstFailure(Strings(from, |from|), to, s.value.chars, 0) == Some(r.error)
    ensures r.Ok? <==> && |from| == |to| && s.Done? && AllForced(from)
                       && AllDone(to, Used(Strings(from, |from|), s.value.chars, 0))
    ensures r.Ok? ==> r.text.chars == Replaced(Strings(from, |from|), CharsOf(to, |to|), s.value.chars, 0)
    ensures r.Ok? ==> forall c :: c in r.text.context <==>
              c in s.value.context || FromContexts(to, Used(Strings(from, |from|), s.value.chars, 0), c)
  {
    if |from| != |to| {
      return LengthMismatch;
    }
    var patterns := ForcePatterns(from);
    if patterns.Throws? {
      return Failed(patterns.error);
    }
    assert patterns.value == Strings(from, |from|);
    if s.Throws? {
      return Failed(s.error);
    }
    r := ReplaceAll(patterns.value, to, s.value);
  }

  ghost function Strings(from: seq<Outcome<string, Exception>>, n: nat): (r: seq<string>)
    requires n <= |from|
    ensures |r| == n && forall i :: 0 <= i < n ==> r[i] == if from[i].Done? then from[i].value else ""
  {
    if n == 0 then [] else Strings(from, n - 1) + [if from[n - 1].Done? then from[n - 1].value else ""]
  }

  /** When `to` lists the same texts as `from`, the text comes back unchanged. */
  lemma SameListsIdentity(from: seq<string>, to: seq<Outcome<Text, Exception>>, s: string)
    requires |from| == |to| && forall i :: 0 <= i < |to| ==> to[i].Done? && to[i].value.chars == from[i]
    ensures Replaced(from, CharsOf(to, |to|), s, 0) == s
  {
    assert CharsOf(to, |to|) == from;
    Identity(from, s, 0);
  }
}
