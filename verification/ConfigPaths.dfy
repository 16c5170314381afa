/** Which scope a resolved value comes from, at any depth of the configuration. */
module ConfigPaths {
  import opened ConfigMerge
  import opened Hashing
  import opened Wrappers

  /** The value reached from a dictionary by keys, one after the other. */
  function AtPath(d: Dict, path: seq<string>): Option<Json>
    requires path != []
    decreases |path|
  {
    if path[0] !in d then None
    else if |path| == 1 then Some(d[path[0]])
    else if d[path[0]].Obj? then AtPath(d[path[0]].fields, path[1..])
    else None
  }

  /** The dictionary says something at the path, or has a value other than a dictionary above it. */
  ghost predicate Decides(d: Dict, path: seq<string>)
    requires path != []
  {
    || AtPath(d, path).Some?
    || exists n: nat :: 0 < n < |path| && AtPath(d, path[..n]).Some? && !AtPath(d, path[..n]).value.Obj?
  }

  /** Only lists at the top can be united. */
  ghost predicate NotUnited(hints: Hints, path: seq<string>)
    requires path != []
  {
    |path| > 1 || path[0] !in hints || hints[path[0]].Replace?
  }

  lemma Deeper(d: Dict, path: seq<string>)
    requires |path| > 1
    ensures path[0] !in d ==> !Decides(d, path)
    ensures path[0] in d && !d[path[0]].Obj? ==> Decides(d, path) && AtPath(d, path).None?
    ensures path[0] in d && d[path[0]].Obj? ==> (Decides(d, path) <==> Decides(d[path[0]].fields, path[1..]))
  {
    var k, rest := path[0], path[1..];
    forall n: nat | 0 < n < |path| ensures path[..n][0] == k && (n > 1 ==> path[..n][1..] == rest[..n - 1]) {}
    if k in d && !d[k].Obj? {
      assert AtPath(d, path[..1]) == Some(d[k]);
    }
    if k in d && d[k].Obj? {
      var inner := d[k].fields;
      if n: nat :| 0 < n < |path| && AtPath(d, path[..n]).Some? && !AtPath(d, path[..n]).value.Obj? {
        assert n > 1;
        assert AtPath(inner, rest[..n - 1]) == AtPath(d, path[..n]);
      }
      if n: nat :| 0 < n < |rest| && AtPath(inner, rest[..n]).Some? && !AtPath(inner, rest[..n]).value.Obj? {
        assert path[..n + 1][1..] == rest[..n];
        assert AtPath(d, path[..n + 1]) == AtPath(inner, rest[..n]);
      }
    }
  }

  /** A merge has a value, other than a dictionary, at a path exactly when the overlay has it there,
      or the base has it and the overlay decides nothing about the path. */
  lemma {:induction false} MergedAtIff(base: Dict, overlay: Dict, hints: Hints, path: seq<string>, v: Json)
    requires path != [] && !v.Obj? && NotUnited(hints, path)
    ensures AtPath(Merge(base, overlay, hints), path) == Some(v) <==>
      AtPath(overlay, path) == Some(v) || (AtPath(base, path) == Some(v) && !Decides(overlay, path))
    decreases |path|
  {
    hide Union, Decides;
    var k := path[0];
    var merged := Merge(base, overlay, hints);
    if |path| == 1 {
      TopDecides(overlay, path);
    } else {
      Deeper(overlay, path);
      if k in base && k in overlay && base[k].Obj? && overlay[k].Obj? {
        NestedMerge(base[k].fields, overlay[k].fields, At(hints, k));
        MergedAtIff(base[k].fields, overlay[k].fields, map[], path[1..], v);
      }
    }
  }

  lemma TopDecides(d: Dict, path: seq<string>)
    requires |path| == 1
    ensures Decides(d, path) <==> path[0] in d
  {
  }

  /** The value at the path of the last tier that decides about it. */
  ghost predicate LastDecides(tiers: seq<Dict>, path: seq<string>, v: Json)
    requires path != []
  {
    exists i: nat ::
      i < |tiers| && AtPath(tiers[i], path) == Some(v) && forall j: nat | i < j < |tiers| :: !Decides(tiers[j], path)
  }

  lemma LastOneMore(tiers: seq<Dict>, path: seq<string>, v: Json)
    requires path != [] && tiers != []
    ensures
      var rest, last := tiers[..|tiers| - 1], tiers[|tiers| - 1];
      LastDecides(tiers, path, v) <==>
        AtPath(last, path) == Some(v) || (LastDecides(rest, path, v) && !Decides(last, path))
  {
    hide AtPath, Decides;
    var n := |tiers| - 1;
    var rest := tiers[..n];
    if i: nat :| i < |rest| && AtPath(rest[i], path) == Some(v) && forall j: nat | i < j < |rest| ::
      !Decides(rest[j], path)
    {
      if !Decides(tiers[n], path) {
        forall j: nat | i < j < |tiers| ensures !Decides(tiers[j], path) { if j < n { assert rest[j] == tiers[j]; } }
        assert AtPath(tiers[i], path) == Some(v);
      }
    }
    if i: nat :| i < |tiers| && AtPath(tiers[i], path) == Some(v) && forall j: nat | i < j < |tiers| ::
      !Decides(tiers[j], path)
    {
      if i < n {
        forall j: nat | i < j < |rest| ensures !Decides(rest[j], path) { assert rest[j] == tiers[j]; }
        assert AtPath(rest[i], path) == Some(v);
      }
    }
  }

  /** At any depth, a resolved value comes from the most specific tier that decides about its path:
      a tier with a value there, or with something above it that is no dictionary. */
  lemma {:induction false} ResolvedAtIff(tiers: seq<Dict>, hints: Hints, path: seq<string>, v: Json)
    requires path != [] && !v.Obj? && NotUnited(hints, path)
    ensures AtPath(ConfigMerge.Resolve(tiers, hints), path) == Some(v) <==> LastDecides(tiers, path, v)
  {
    hide Merge, AtPath, Decides, LastDecides;
    if tiers == [] {
      NothingAt(path, v);
    } else {
      var rest, last := tiers[..|tiers| - 1], tiers[|tiers| - 1];
      ResolvedAtIff(rest, hints, path, v);
      MergedAtIff(ConfigMerge.Resolve(rest, hints), last, hints, path, v);
      LastOneMore(tiers, path, v);
    }
  }

  lemma NothingAt(path: seq<string>, v: Json)
    requires path != []
    ensures AtPath(map[], path) == None && !LastDecides([], path, v)
  {
  }

  /** The value a declared scope has, if it is declared and decides about the path. */
  ghost predicate ScopeGives(scopes: set<Scope>, maps: map<Scope, Dict>, s: Scope, path: seq<string>, v: Json)
    requires path != []
  {
    s in scopes && s in maps && AtPath(maps[s], path) == Some(v)
  }

  ghost predicate ScopeSilent(scopes: set<Scope>, maps: map<Scope, Dict>, s: Scope, path: seq<string>)
    requires path != []
  {
    s in scopes && s in maps ==> !Decides(maps[s], path)
  }

  /** The feed source's value counts before the client's, and that before the global one. */
  lemma DeclaredAtIff(scopes: set<Scope>, maps: map<Scope, Dict>, hints: Hints, path: seq<string>, v: Json)
    requires path != [] && !v.Obj? && NotUnited(hints, path)
    ensures
      var feed, client := ScopeSilent(scopes, maps, FeedSource, path), ScopeSilent(scopes, maps, Client, path);
      AtPath(ConfigMerge.Resolve(Tiers(scopes, maps, SCOPE_ORDER), hints), path) == Some(v) <==>
        || ScopeGives(scopes, maps, FeedSource, path, v)
        || (feed && ScopeGives(scopes, maps, Client, path, v))
        || (feed && client && ScopeGives(scopes, maps, Global, path, v))
  {
    hide ConfigMerge.Resolve, AtPath, Decides, TierOf, LastDecides, ScopeGives, ScopeSilent;
    var global := TierOf(scopes, maps, Global);
    TiersAre(scopes, maps);
    NothingAt(path, v);
    assert [] + global == global;
    LastOfScope([], scopes, maps, Global, path, v);
    LastOfScope(global, scopes, maps, Client, path, v);
    LastOfScope(global + TierOf(scopes, maps, Client), scopes, maps, FeedSource, path, v);
    ResolvedAtIff(Tiers(scopes, maps, SCOPE_ORDER), hints, path, v);
  }

  function TierOf(scopes: set<Scope>, maps: map<Scope, Dict>, s: Scope): seq<Dict> {
    if s !in scopes then [] else [if s in maps then maps[s] else map[]]
  }

  lemma LastOfScope(
    tiers: seq<Dict>, scopes: set<Scope>, maps: map<Scope, Dict>, s: Scope, path: seq<string>, v: Json)
    requires path != []
    ensures LastDecides(tiers + TierOf(scopes, maps, s), path, v) <==>
      || ScopeGives(scopes, maps, s, path, v)
      || (ScopeSilent(scopes, maps, s, path) && LastDecides(tiers, path, v))
  {
    hide AtPath, Decides, LastDecides;
    if s in scopes {
      var longer := tiers + TierOf(scopes, maps, s);
      assert longer[..|tiers|] == tiers;
      LastOneMore(longer, path, v);
      EmptyDecidesNothing(path);
    } else {
      assert tiers + [] == tiers;
    }
  }

  lemma EmptyDecidesNothing(path: seq<string>)
    requires path != []
    ensures AtPath(map[], path) == None && !Decides(map[], path)
  {
  }

  lemma TiersOneMore(scopes: set<Scope>, maps: map<Scope, Dict>, order: seq<Scope>, s: Scope)
    ensures Tiers(scopes, maps, order + [s]) == Tiers(scopes, maps, order) + TierOf(scopes, maps, s)
  {
    assert (order + [s])[..|order|] == order;
  }

  lemma TiersAre(scopes: set<Scope>, maps: map<Scope, Dict>)
    ensures Tiers(scopes, maps, SCOPE_ORDER) ==
      TierOf(scopes, maps, Global) + TierOf(scopes, maps, Client) + TierOf(scopes, maps, FeedSource)
  {
    TiersOneMore(scopes, maps, [], Global);
    TiersOneMore(scopes, maps, [Global], Client);
    TiersOneMore(scopes, maps, [Global, Client], FeedSource);
    assert SCOPE_ORDER == [] + [Global] + [Client] + [FeedSource];
    assert [] + [Global] == [Global] && [Global] + [Client] == [Global, Client];
    assert [] + TierOf(scopes, maps, Global) == TierOf(scopes, maps, Global);
  }
}
