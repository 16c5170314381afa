/** Slot rules of custom labels: what a run writes, and what the preview counts. */
module CustomLabels {
  import opened Hashing
  import opened LabelTemplates
  import opened Wrappers

  /** A draft rule as the client sends it. */
  datatype Rule = Rule(id: string, slot: string, field: string, all: bool, active: bool, template: string,
    fallback: string)

  /** A rule ready for matching; `source` is the template it was compiled from. */
  datatype Prepared = Prepared(
    id: string, slot: string, field: string, all: bool, ids: set<string>,
    template: seq<Segment>, fallback: seq<Segment>)

  function Prepare(rule: Rule, ids: set<string>): Prepared {
    Prepared(rule.id, rule.slot, rule.field, rule.all, ids, Compile(rule.template), Compile(rule.fallback))
  }

  /** The active rules, compiled; ids come from the separate id lists. */
  function BuildState(rules: seq<Rule>, slotIds: map<string, set<string>>): seq<Prepared> {
    if rules == [] then []
    else
      var last := rules[|rules| - 1];
      BuildState(rules[..|rules| - 1], slotIds) +
      (if last.active then [Prepare(last, if last.id in slotIds then slotIds[last.id] else {})] else [])
  }

  /** What validation demands of rules, as far as it matters here. */
  ghost predicate Validated(rules: seq<Rule>) {
    && (forall i :: 0 <= i < |rules| ==> rules[i].template != "")
    && (forall i, j :: 0 <= i < j < |rules| ==> rules[i].id != rules[j].id)
  }

  // ----- Grouping by slot -----

  function Group(rules: seq<Prepared>, slot: string): seq<Prepared> {
    if rules == [] then []
    else
      var last := rules[|rules| - 1];
      Group(rules[..|rules| - 1], slot) + (if last.slot == slot then [last] else [])
  }

  /** The slots in the order they first occur. */
  function Slots(rules: seq<Prepared>): seq<string> {
    if rules == [] then []
    else
      var before, last := Slots(rules[..|rules| - 1]), rules[|rules| - 1];
      if last.slot in before then before else before + [last.slot]
  }

  lemma {:induction false} SlotsAreGroups(rules: seq<Prepared>, slot: string)
    ensures slot in Slots(rules) <==> Group(rules, slot) != []
    ensures forall i, j :: 0 <= i < j < |Slots(rules)| ==> Slots(rules)[i] != Slots(rules)[j]
  {
    if rules != [] { SlotsAreGroups(rules[..|rules| - 1], slot); }
  }

  method GroupBySlot(rules: seq<Prepared>) returns (order: seq<string>, groups: map<string, seq<Prepared>>)
    ensures order == Slots(rules)
    ensures forall slot :: slot in order <==> slot in groups
    ensures forall slot :: slot in groups ==> groups[slot] == Group(rules, slot) != []
  {
    order, groups := [], map[];
    for i := 0 to |rules|
      invariant order == Slots(rules[..i])
      invariant forall slot :: slot in order <==> slot in groups
      invariant forall slot :: slot in groups ==> groups[slot] == Group(rules[..i], slot) != []
      invariant forall slot :: slot !in groups ==> Group(rules[..i], slot) == []
    {
      var rule := rules[i];
      assert rules[..i + 1][..i] == rules[..i];
      if rule.slot !in groups {
        order := order + [rule.slot];
        groups := groups[rule.slot := []];
      }
      groups := groups[rule.slot := groups[rule.slot] + [rule]];
    }
    assert rules[..|rules|] == rules;
  }

  // ----- One slot of one product -----

  predicate Matches(show: Json -> string, rule: Prepared, p: Product) {
    rule.all || exists v :: v in Resolve(show, p, rule.field) && v in rule.ids
  }

  predicate Labels(show: Json -> string, rule: Prepared, p: Product) {
    Matches(show, rule, p) && Render(show, rule.template, p).Some?
  }

  /** The first rule that matches and renders; the number of rules if none does. */
  function Winner(show: Json -> string, group: seq<Prepared>, p: Product): (n: nat)
    ensures n <= |group|
  {
    if group == [] || Labels(show, group[0], p) then 0 else 1 + Winner(show, group[1..], p)
  }

  predicate AnyMatches(show: Json -> string, group: seq<Prepared>, p: Product) {
    exists i :: 0 <= i < |group| && Matches(show, group[i], p)
  }

  /** What the first rule's fallback gives when rules match but none of them renders. */
  function Fallback(show: Json -> string, group: seq<Prepared>, p: Product): Option<string> {
    if AnyMatches(show, group, p) && group[0].fallback != [] then Render(show, group[0].fallback, p) else None
  }

  function SlotText(show: Json -> string, group: seq<Prepared>, p: Product): Option<string> {
    var n := Winner(show, group, p);
    if n < |group| then Render(show, group[n].template, p) else Fallback(show, group, p)
  }

  function SlotValue(show: Json -> string, group: seq<Prepared>, p: Product): string {
    if SlotText(show, group, p).Some? then SlotText(show, group, p).value else ""
  }

  /** A run writes the slot: there is a text, and it is not empty. */
  predicate Writes(show: Json -> string, group: seq<Prepared>, p: Product) {
    SlotValue(show, group, p) != ""
  }

  /** The preview counts the slot: some rule wins, or the fallback gives a text. */
  predicate Counts(show: Json -> string, group: seq<Prepared>, p: Product) {
    || Winner(show, group, p) < |group|
    || (Fallback(show, group, p).Some? && Fallback(show, group, p) != Some(""))
  }

  lemma {:induction false} WinnerLabels(show: Json -> string, group: seq<Prepared>, p: Product)
    ensures Winner(show, group, p) < |group| ==> Labels(show, group[Winner(show, group, p)], p)
    ensures forall i :: 0 <= i < Winner(show, group, p) ==> !Labels(show, group[i], p)
  {
    if group != [] && !Labels(show, group[0], p) { WinnerLabels(show, group[1..], p); }
  }

  /** Preview and run agree on a product exactly when the winning rule, if any, does not render
      to nothing. */
  lemma CountsIsWritesIff(show: Json -> string, group: seq<Prepared>, p: Product)
    ensures (Counts(show, group, p) <==> Writes(show, group, p)) <==>
      !(Winner(show, group, p) < |group| && Render(show, group[Winner(show, group, p)].template, p) == Some(""))
  {
    WinnerLabels(show, group, p);
  }

  // ----- A run -----

  function Process(show: Json -> string, rules: seq<Prepared>, p: Product): Product {
    p + WrittenSlots(show, rules, Slots(rules), p)
  }

  function WrittenSlots(show: Json -> string, rules: seq<Prepared>, slots: seq<string>, p: Product): Product {
    map slot | slot in slots && Writes(show, Group(rules, slot), p) :: Str(SlotValue(show, Group(rules, slot), p))
  }

  method MatchesRule(show: Json -> string, rule: Prepared, p: Product) returns (yes: bool)
    ensures yes == Matches(show, rule, p)
  {
    hide Resolve;
    var values := Resolve(show, p, rule.field);
    if rule.all { return true; }
    for i := 0 to |values|
      invariant forall k :: 0 <= k < i ==> values[k] !in rule.ids
    {
      if values[i] in rule.ids { return true; }
    }
    yes := false;
  }

  /** The loop over the rules of one slot, stopping at the first text. */
  method ValueOfSlot(show: Json -> string, group: seq<Prepared>, p: Product) returns (value: Option<string>)
    requires group != []
    ensures value == SlotText(show, group, p)
  {
    hide Matches, Render;
    value := None;
    var matched := false;
    for i := 0 to |group|
      invariant value.None?
      invariant matched <==> exists k :: 0 <= k < i && Matches(show, group[k], p)
      invariant forall k :: 0 <= k < i ==> !Labels(show, group[k], p)
    {
      var yes := MatchesRule(show, group[i], p);
      if !yes { continue; }
      matched := true;
      value := RenderTemplate(show, group[i].template, p);
      if value.Some? {
        WinnerIs(show, group, p, i);
        return;
      }
    }
    WinnerIs(show, group, p, |group|);
    if matched && group[0].fallback != [] {
      value := RenderTemplate(show, group[0].fallback, p);
    }
  }

  lemma WinnerIs(show: Json -> string, group: seq<Prepared>, p: Product, n: nat)
    requires n <= |group| && forall k :: 0 <= k < n ==> !Labels(show, group[k], p)
    requires n < |group| ==> Labels(show, group[n], p)
    ensures Winner(show, group, p) == n
  {
    hide Labels;
    WinnerLabels(show, group, p);
  }

  lemma OneMoreSlot(show: Json -> string, rules: seq<Prepared>, slots: seq<string>, slot: string, p: Product)
    ensures WrittenSlots(show, rules, slots + [slot], p) ==
      if Writes(show, Group(rules, slot), p)
      then WrittenSlots(show, rules, slots, p)[slot := Str(SlotValue(show, Group(rules, slot), p))]
      else WrittenSlots(show, rules, slots, p)
  {
    hide SlotValue;
  }

  method ProcessProduct(show: Json -> string, rules: seq<Prepared>, p: Product) returns (result: Product)
    ensures result == Process(show, rules, p)
  {
    hide SlotText, Group, WrittenSlots;
    var order, groups := GroupBySlot(rules);
    NoSlots(show, rules, p);
    if rules == [] { return p; }
    result := p;
    for i := 0 to |order|
      invariant result == p + WrittenSlots(show, rules, order[..i], p)
    {
      var slot := order[i];
      var value := ValueOfSlot(show, groups[slot], p);
      assert order[..i + 1] == order[..i] + [slot];
      OneMoreSlot(show, rules, order[..i], slot, p);
      if value.Some? && value.value != "" {
        PutLater(p, WrittenSlots(show, rules, order[..i], p), slot, Str(value.value));
        result := result[slot := Str(value.value)];
      }
    }
    assert order[..|order|] == order;
  }

  lemma PutLater(p: Product, q: Product, k: string, v: Json)
    ensures (p + q)[k := v] == p + q[k := v]
  {
  }

  lemma NoSlots(show: Json -> string, rules: seq<Prepared>, p: Product)
    ensures p + WrittenSlots(show, rules, [], p) == p
    ensures rules == [] ==> Slots(rules) == []
  {
  }

  // ----- The preview -----

  datatype Stats = Stats(matched: nat, labeled: nat, sample: seq<string>)

  datatype Staged = Staged(id: string, product: Product)

  ghost predicate DistinctIds(rules: seq<Prepared>) {
    forall i, j :: 0 <= i < j < |rules| ==> rules[i].id != rules[j].id
  }

  /** The rule whose text the slot gets. */
  predicate Wins(show: Json -> string, group: seq<Prepared>, rule: Prepared, p: Product) {
    var n := Winner(show, group, p);
    n < |group| && group[n].id == rule.id
  }

  /** One product noted in a rule's statistics. */
  function Note(show: Json -> string, group: seq<Prepared>, rule: Prepared, s: Stats, row: Staged, limit: nat): Stats {
    if !Matches(show, rule, row.product) then s
    else Stats(
      s.matched + 1,
      s.labeled + (if Wins(show, group, rule, row.product) then 1 else 0),
      if |s.sample| < limit then s.sample + [row.id] else s.sample)
  }

  function StatsOf(show: Json -> string, group: seq<Prepared>, rule: Prepared, rows: seq<Staged>, limit: nat): Stats {
    if rows == [] then Stats(0, 0, [])
    else Note(show, group, rule, StatsOf(show, group, rule, rows[..|rows| - 1], limit), rows[|rows| - 1], limit)
  }

  /** How many products the preview counts for a slot. */
  function Labeled(show: Json -> string, group: seq<Prepared>, rows: seq<Staged>): nat {
    if rows == [] then 0
    else Labeled(show, group, rows[..|rows| - 1]) + (if Counts(show, group, rows[|rows| - 1].product) then 1 else 0)
  }

  predicate CountsAny(show: Json -> string, rules: seq<Prepared>, slots: seq<string>, p: Product) {
    exists i :: 0 <= i < |slots| && Counts(show, Group(rules, slots[i]), p)
  }

  function LabeledAny(show: Json -> string, rules: seq<Prepared>, rows: seq<Staged>): nat {
    if rows == [] then 0
    else
      LabeledAny(show, rules, rows[..|rows| - 1]) +
      (if CountsAny(show, rules, Slots(rules), rows[|rows| - 1].product) then 1 else 0)
  }

  /** One rule of a slot; `open` while no earlier rule has won. */
  method PreviewRule(show: Json -> string, group: seq<Prepared>, i: nat, row: Staged, s: Stats, open: bool, limit: nat)
    returns (noted: Stats, matched: bool, wins: bool)
    requires i < |group| && DistinctIds(group) && (open <==> Winner(show, group, row.product) >= i)
    ensures matched == Matches(show, group[i], row.product)
    ensures wins == (Winner(show, group, row.product) == i)
    ensures noted == Note(show, group, group[i], s, row, limit)
  {
    hide Matches, Render;
    var rule, p := group[i], row.product;
    WinnerLabels(show, group, p);
    noted, wins := s, false;
    matched := MatchesRule(show, rule, p);
    if !matched { return; }
    noted := noted.(matched := noted.matched + 1);
    if |noted.sample| < limit { noted := noted.(sample := noted.sample + [row.id]); }
    if open {
      var value := RenderTemplate(show, rule.template, p);
      if value.Some? {
        wins := true;
        noted := noted.(labeled := noted.labeled + 1);
        WinnerIs(show, group, p, i);
      }
    }
  }

  ghost predicate Noted(show: Json -> string, group: seq<Prepared>, n: nat, before: map<string, Stats>,
      after: map<string, Stats>, row: Staged, limit: nat)
    requires n <= |group|
  {
    && after.Keys == before.Keys
    && (forall k :: 0 <= k < n ==> group[k].id in before)
    && (forall k :: 0 <= k < n ==> after[group[k].id] == Note(show, group, group[k], before[group[k].id], row, limit))
    && (forall id :: id in before && (forall k :: 0 <= k < n ==> group[k].id != id) ==> after[id] == before[id])
  }

  lemma NotedOneMore(show: Json -> string, group: seq<Prepared>, n: nat, before: map<string, Stats>,
      after: map<string, Stats>, row: Staged, limit: nat)
    requires n < |group| && DistinctIds(group) && group[n].id in before
      && Noted(show, group, n, before, after, row, limit)
    ensures after[group[n].id] == before[group[n].id]
    ensures Noted(show, group, n + 1, before,
      after[group[n].id := Note(show, group, group[n], after[group[n].id], row, limit)], row, limit)
  {
    hide Note;
  }

  /** The loop over the rules of one slot, without stopping at the winner. */
  method PreviewSlot(show: Json -> string, group: seq<Prepared>, row: Staged, stats: map<string, Stats>, limit: nat)
    returns (updated: map<string, Stats>, won: bool)
    requires group != [] && DistinctIds(group) && forall i :: 0 <= i < |group| ==> group[i].id in stats
    ensures won == Counts(show, group, row.product)
    ensures Noted(show, group, |group|, stats, updated, row, limit)
  {
    hide Matches, Render, Note, Noted, Winner;
    var p := row.product;
    updated := stats;
    var winner: Option<string>, anyMatched := None, false;
    NothingNoted(show, group, stats, row, limit);
    for i := 0 to |group|
      invariant winner.None? <==> Winner(show, group, p) >= i
      invariant anyMatched <==> exists k :: 0 <= k < i && Matches(show, group[k], p)
      invariant Noted(show, group, i, stats, updated, row, limit)
    {
      NotedOneMore(show, group, i, stats, updated, row, limit);
      var noted, matched, wins := PreviewRule(show, group, i, row, stats[group[i].id], winner.None?, limit);
      if wins { winner := Some(group[i].id); }
      anyMatched := anyMatched || matched;
      updated := updated[group[i].id := noted];
    }
    won := winner.Some?;
    if winner.None? && anyMatched && group[0].fallback != [] {
      var fallback := RenderTemplate(show, group[0].fallback, p);
      won := fallback.Some? && fallback.value != "";
    }
  }

  lemma NothingNoted(show: Json -> string, group: seq<Prepared>, stats: map<string, Stats>, row: Staged, limit: nat)
    ensures Noted(show, group, 0, stats, stats, row, limit)
  {
  }

  lemma {:induction false} GroupMembers(rules: seq<Prepared>, slot: string)
    ensures forall g :: g in Group(rules, slot) <==> g in rules && g.slot == slot
    ensures DistinctIds(rules) ==> DistinctIds(Group(rules, slot))
  {
    if rules != [] {
      var rest, last := rules[..|rules| - 1], rules[|rules| - 1];
      assert rules == rest + [last];
      GroupMembers(rest, slot);
      if DistinctIds(rules) {
        forall i | 0 <= i < |Group(rest, slot)| ensures Group(rest, slot)[i].id != last.id {
          assert Group(rest, slot)[i] in rest;
        }
      }
    }
  }

  predicate RuleNoted(show: Json -> string, rules: seq<Prepared>, slots: seq<string>, rule: Prepared,
      before: Stats, after: Stats, row: Staged, limit: nat)
  {
    after == if rule.slot in slots then Note(show, Group(rules, rule.slot), rule, before, row, limit) else before
  }

  /** One product noted under every rule of the given slots. */
  ghost predicate RowNoted(show: Json -> string, rules: seq<Prepared>, slots: seq<string>,
      before: map<string, Stats>, after: map<string, Stats>, row: Staged, limit: nat)
  {
    && after.Keys == before.Keys
    && forall rule :: rule in rules && rule.id in before ==>
      RuleNoted(show, rules, slots, rule, before[rule.id], after[rule.id], row, limit)
  }

  lemma RuleNotedOneMore(show: Json -> string, rules: seq<Prepared>, slots: seq<string>, slot: string, rule: Prepared,
      before: Stats, middle: map<string, Stats>, after: map<string, Stats>, row: Staged, limit: nat)
    requires DistinctIds(rules) && slot !in slots && rule in rules && rule.id in middle
    requires RuleNoted(show, rules, slots, rule, before, middle[rule.id], row, limit)
    requires Noted(show, Group(rules, slot), |Group(rules, slot)|, middle, after, row, limit)
    ensures RuleNoted(show, rules, slots + [slot], rule, before, after[rule.id], row, limit)
  {
    hide Note, Group, DistinctIds;
    GroupMembers(rules, slot);
    var group := Group(rules, slot);
    if rule.slot == slot {
      var k :| 0 <= k < |group| && group[k] == rule;
      assert after[group[k].id] == Note(show, group, group[k], middle[group[k].id], row, limit);
    } else {
      forall k | 0 <= k < |group| ensures group[k].id != rule.id {
        assert group[k] in rules;
        if group[k].id == rule.id { SameIdSameRule(rules, group[k], rule); }
      }
    }
  }

  lemma RowNotedOneMore(show: Json -> string, rules: seq<Prepared>, slots: seq<string>, slot: string,
      before: map<string, Stats>, middle: map<string, Stats>, after: map<string, Stats>, row: Staged, limit: nat)
    requires DistinctIds(rules) && slot !in slots && forall rule :: rule in rules ==> rule.id in before
    requires RowNoted(show, rules, slots, before, middle, row, limit)
    requires Noted(show, Group(rules, slot), |Group(rules, slot)|, middle, after, row, limit)
    ensures RowNoted(show, rules, slots + [slot], before, after, row, limit)
  {
    hide Note, Group, DistinctIds, RuleNoted, Noted;
    NotedKeys(show, Group(rules, slot), middle, after, row, limit);
    forall rule | rule in rules
      ensures RuleNoted(show, rules, slots + [slot], rule, before[rule.id], after[rule.id], row, limit)
    {
      RuleNotedOneMore(show, rules, slots, slot, rule, before[rule.id], middle, after, row, limit);
    }
  }

  lemma SameIdSameRule(rules: seq<Prepared>, a: Prepared, b: Prepared)
    requires DistinctIds(rules) && a in rules && b in rules && a.id == b.id
    ensures a == b
  {
  }

  ghost predicate Counted(show: Json -> string, rules: seq<Prepared>, slots: seq<string>,
      before: map<string, nat>, after: map<string, nat>, p: Product)
  {
    && after.Keys == before.Keys
    && forall slot :: slot in before ==>
      after[slot] == before[slot] + (if slot in slots && Counts(show, Group(rules, slot), p) then 1 else 0)
  }

  lemma CountedAtStart(show: Json -> string, rules: seq<Prepared>, slots: map<string, nat>, p: Product)
    ensures Counted(show, rules, [], slots, slots, p)
  {
  }

  lemma CountedOneMore(show: Json -> string, rules: seq<Prepared>, slots: seq<string>, slot: string,
      before: map<string, nat>, after: map<string, nat>, p: Product)
    requires Counted(show, rules, slots, before, after, p) && slot in before && slot !in slots
    ensures slot in after
    ensures Counted(show, rules, slots + [slot], before,
      if Counts(show, Group(rules, slot), p) then after[slot := after[slot] + 1] else after, p)
  {
    hide Counts, Group;
  }

  /** One product: every slot, every rule. */
  method PreviewRow(show: Json -> string, rules: seq<Prepared>, order: seq<string>, groups: map<string, seq<Prepared>>,
      row: Staged, stats: map<string, Stats>, slots: map<string, nat>, limit: nat)
    returns (newStats: map<string, Stats>, newSlots: map<string, nat>, labeled: bool)
    requires order == Slots(rules) && DistinctIds(rules) && forall rule :: rule in rules ==> rule.id in stats
    requires forall slot :: slot in order ==>
      slot in slots && slot in groups && groups[slot] == Group(rules, slot) != []
    ensures RowNoted(show, rules, order, stats, newStats, row, limit)
    ensures Counted(show, rules, order, slots, newSlots, row.product)
    ensures labeled == CountsAny(show, rules, order, row.product)
  {
    hide Noted, RowNoted, DistinctIds, Group, Counts, Slots, Counted;
    newStats, newSlots, labeled := stats, slots, false;
    SlotsAreGroups(rules, "");
    RowNotedAtStart(show, rules, stats, row, limit);
    CountedAtStart(show, rules, slots, row.product);
    for i := 0 to |order|
      invariant newStats.Keys == stats.Keys
      invariant RowNoted(show, rules, order[..i], stats, newStats, row, limit)
      invariant Counted(show, rules, order[..i], slots, newSlots, row.product)
      invariant labeled <==> exists k :: 0 <= k < i && Counts(show, Group(rules, order[k]), row.product)
    {
      var slot := order[i];
      GroupMembers(rules, slot);
      assert forall k :: 0 <= k < |groups[slot]| ==> groups[slot][k] in rules;
      var updated, won := PreviewSlot(show, groups[slot], row, newStats, limit);
      assert slot !in order[..i];
      RowNotedOneMore(show, rules, order[..i], slot, stats, newStats, updated, row, limit);
      assert order[..i + 1] == order[..i] + [slot];
      NotedKeys(show, groups[slot], newStats, updated, row, limit);
      CountedOneMore(show, rules, order[..i], slot, slots, newSlots, row.product);
      newStats := updated;
      if won {
        newSlots := newSlots[slot := newSlots[slot] + 1];
        labeled := true;
      }
    }
    assert order[..|order|] == order;
  }

  lemma NotedKeys(
    show: Json -> string, group: seq<Prepared>, before: map<string, Stats>, after: map<string, Stats>, row: Staged,
    limit: nat)
    requires Noted(show, group, |group|, before, after, row, limit)
    ensures after.Keys == before.Keys
  {
  }

  lemma RowNotedAtStart(show: Json -> string, rules: seq<Prepared>, stats: map<string, Stats>, row: Staged, limit: nat)
    ensures RowNoted(show, rules, [], stats, stats, row, limit)
  {
  }

  /** Preview over all staged products. */
  method EvaluateRules(show: Json -> string, rules: seq<Prepared>, rows: seq<Staged>, limit: nat)
    returns (stats: map<string, Stats>, slots: map<string, nat>, any: nat)
    requires DistinctIds(rules)
    ensures forall rule :: rule in rules ==>
      rule.id in stats && stats[rule.id] == StatsOf(show, Group(rules, rule.slot), rule, rows, limit)
    ensures forall slot :: slot in slots <==> slot in Slots(rules)
    ensures forall slot :: slot in slots ==> slots[slot] == Labeled(show, Group(rules, slot), rows)
    ensures any == LabeledAny(show, rules, rows)
  {
    hide Group, Slots, DistinctIds, Note, Counts, CountsAny;
    var order, groups := GroupBySlot(rules);
    var ids := set rule | rule in rules :: rule.id;
    stats := map id | id in ids :: Stats(0, 0, []);
    slots := map slot | slot in order :: 0;
    any := 0;
    for i := 0 to |rows|
      invariant forall rule :: rule in rules ==>
        rule.id in stats && stats[rule.id] == StatsOf(show, Group(rules, rule.slot), rule, rows[..i], limit)
      invariant forall slot :: slot in slots <==> slot in order
      invariant forall slot :: slot in slots ==> slots[slot] == Labeled(show, Group(rules, slot), rows[..i])
      invariant any == LabeledAny(show, rules, rows[..i])
    {
      assert rows[..i + 1][..i] == rows[..i];
      var newStats, newSlots, labeled := PreviewRow(show, rules, order, groups, rows[i], stats, slots, limit);
      forall rule | rule in rules
        ensures rule.id in newStats
          && newStats[rule.id] == StatsOf(show, Group(rules, rule.slot), rule, rows[..i + 1], limit)
      {
        SlotOfRule(rules, rule);
      }
      stats, slots := newStats, newSlots;
      if labeled { any := any + 1; }
    }
    assert rows[..|rows|] == rows;
  }

  lemma SlotOfRule(rules: seq<Prepared>, rule: Prepared)
    requires rule in rules
    ensures rule.slot in Slots(rules)
  {
    SlotsAreGroups(rules, rule.slot);
    GroupMembers(rules, rule.slot);
  }

  // ----- Preview against run -----

  method PrepareRules(rules: seq<Rule>, slotIds: map<string, set<string>>) returns (prepared: seq<Prepared>)
    ensures prepared == BuildState(rules, slotIds)
  {
    prepared := [];
    for i := 0 to |rules|
      invariant prepared == BuildState(rules[..i], slotIds)
    {
      var rule := rules[i];
      assert rules[..i + 1][..i] == rules[..i];
      assert prepared + [] == prepared;
      if !rule.active { continue; }
      var template := CompileTemplate(rule.template);
      var fallback := CompileTemplate(rule.fallback);
      var ids := if rule.id in slotIds then slotIds[rule.id] else {};
      prepared := prepared + [Prepared(rule.id, rule.slot, rule.field, rule.all, ids, template, fallback)];
    }
    assert rules[..|rules|] == rules;
  }

  /** Every template was compiled from a text that is not empty. */
  ghost predicate Compiled(prepared: seq<Prepared>) {
    forall i :: 0 <= i < |prepared| ==> exists t: string :: t != "" && prepared[i].template == Compile(t)
  }

  lemma {:induction false} BuildStateIsSound(rules: seq<Rule>, slotIds: map<string, set<string>>)
    requires Validated(rules)
    ensures Compiled(BuildState(rules, slotIds)) && DistinctIds(BuildState(rules, slotIds))
    ensures forall i :: 0 <= i < |BuildState(rules, slotIds)| ==>
      exists j :: 0 <= j < |rules| && rules[j].id == BuildState(rules, slotIds)[i].id
  {
    hide Compile;
    if rules != [] {
      var rest, last := rules[..|rules| - 1], rules[|rules| - 1];
      BuildStateIsSound(rest, slotIds);
      var before := BuildState(rest, slotIds);
      if last.active {
        var prepared := BuildState(rules, slotIds);
        assert prepared[|before|].template == Compile(last.template);
        forall i | 0 <= i < |before| ensures before[i].id != last.id {
          var j :| 0 <= j < |rest| && rest[j].id == before[i].id;
          assert rules[j].id == before[i].id;
        }
        forall i | 0 <= i < |prepared| ensures exists j :: 0 <= j < |rules| && rules[j].id == prepared[i].id {
          if i < |before| {
            var j :| 0 <= j < |rest| && rest[j].id == before[i].id;
            assert rules[j].id == prepared[i].id;
          }
        }
      } else {
        assert BuildState(rules, slotIds) == before + [] == before;
        forall i | 0 <= i < |before| ensures exists j :: 0 <= j < |rules| && rules[j].id == before[i].id {
          var j :| 0 <= j < |rest| && rest[j].id == before[i].id;
          assert rules[j].id == before[i].id;
        }
      }
    }
  }

  lemma GroupIsCompiled(prepared: seq<Prepared>, slot: string)
    requires Compiled(prepared)
    ensures Compiled(Group(prepared, slot))
  {
    hide Compile;
    GroupMembers(prepared, slot);
    var group := Group(prepared, slot);
    forall i | 0 <= i < |group| ensures exists t: string :: t != "" && group[i].template == Compile(t) {
      assert group[i] in prepared;
    }
  }

  /** On compiled rules preview and run agree on every slot of every product. */
  lemma CompiledRulesAgree(show: Json -> string, group: seq<Prepared>, p: Product)
    requires PrintsSomething(show) && Compiled(group)
    ensures Counts(show, group, p) == Writes(show, group, p)
  {
    hide Compile, Render;
    CountsIsWritesIff(show, group, p);
    WinnerLabels(show, group, p);
    var n := Winner(show, group, p);
    if n < |group| {
      var t: string :| t != "" && group[n].template == Compile(t);
      RendersEmptyIff(show, t, p);
    }
  }

  /** The slots a run writes on a product. */
  function Written(show: Json -> string, rules: seq<Prepared>, p: Product): Product {
    WrittenSlots(show, rules, Slots(rules), p)
  }

  function CountWritten(show: Json -> string, rules: seq<Prepared>, slot: string, rows: seq<Staged>): nat {
    if rows == [] then 0
    else
      CountWritten(show, rules, slot, rows[..|rows| - 1]) +
      (if slot in Written(show, rules, rows[|rows| - 1].product) then 1 else 0)
  }

  function CountWrittenAny(show: Json -> string, rules: seq<Prepared>, rows: seq<Staged>): nat {
    if rows == [] then 0
    else
      CountWrittenAny(show, rules, rows[..|rows| - 1]) +
      (if Written(show, rules, rows[|rows| - 1].product) != map[] then 1 else 0)
  }

  /** A run leaves everything but the written slots as it was. */
  lemma ProcessWrites(show: Json -> string, rules: seq<Prepared>, p: Product, key: string)
    ensures key in Written(show, rules, p) ==>
      && key in Slots(rules) && key in Process(show, rules, p)
      && Process(show, rules, p)[key] == Written(show, rules, p)[key]
      && Written(show, rules, p)[key].Str? && Written(show, rules, p)[key].text != ""
    ensures key !in Written(show, rules, p) ==>
      (key in Process(show, rules, p) <==> key in p) && (key in p ==> Process(show, rules, p)[key] == p[key])
  {
    hide SlotValue, Group, Slots;
  }

  lemma SlotIsWrittenIff(show: Json -> string, rules: seq<Prepared>, slot: string, p: Product)
    requires PrintsSomething(show) && Compiled(rules)
    ensures slot in Slots(rules) ==> (slot in Written(show, rules, p) <==> Counts(show, Group(rules, slot), p))
    ensures slot in Written(show, rules, p) ==> slot in Slots(rules)
  {
    hide Compiled, Counts, SlotValue, Group, Slots;
    GroupIsCompiled(rules, slot);
    CompiledRulesAgree(show, Group(rules, slot), p);
  }

  /** The preview's count of a slot is the number of products on which a run writes that slot. */
  lemma {:induction false} PreviewCountsWrites(
    show: Json -> string, rules: seq<Prepared>, slot: string, rows: seq<Staged>)
    requires PrintsSomething(show) && Compiled(rules) && slot in Slots(rules)
    ensures Labeled(show, Group(rules, slot), rows) == CountWritten(show, rules, slot, rows)
  {
    hide Compiled, Counts, Written, Group, Slots;
    if rows != [] {
      PreviewCountsWrites(show, rules, slot, rows[..|rows| - 1]);
      SlotIsWrittenIff(show, rules, slot, rows[|rows| - 1].product);
    }
  }

  lemma AnyIsWrittenIff(show: Json -> string, rules: seq<Prepared>, p: Product)
    requires PrintsSomething(show) && Compiled(rules)
    ensures CountsAny(show, rules, Slots(rules), p) <==> Written(show, rules, p) != map[]
  {
    hide Compiled, Counts, Written, Group, Slots;
    var slots := Slots(rules);
    if Written(show, rules, p) != map[] {
      var slot :| slot in Written(show, rules, p);
      SlotIsWrittenIff(show, rules, slot, p);
      var i :| 0 <= i < |slots| && slots[i] == slot;
      assert Counts(show, Group(rules, slots[i]), p);
    }
    if CountsAny(show, rules, slots, p) {
      var i :| 0 <= i < |slots| && Counts(show, Group(rules, slots[i]), p);
      SlotIsWrittenIff(show, rules, slots[i], p);
    }
  }

  lemma {:induction false} PreviewCountsWritesAny(show: Json -> string, rules: seq<Prepared>, rows: seq<Staged>)
    requires PrintsSomething(show) && Compiled(rules)
    ensures LabeledAny(show, rules, rows) == CountWrittenAny(show, rules, rows)
  {
    hide Compiled, CountsAny, Written, Slots;
    if rows != [] {
      PreviewCountsWritesAny(show, rules, rows[..|rows| - 1]);
      AnyIsWrittenIff(show, rules, rows[|rows| - 1].product);
    }
  }

  /** For validated rules the preview tells exactly what a run will do, slot by slot and overall. */
  lemma PreviewAgreesWithRun(
    show: Json -> string, rules: seq<Rule>, slotIds: map<string, set<string>>, rows: seq<Staged>)
    requires PrintsSomething(show) && Validated(rules)
    ensures
      var prepared := BuildState(rules, slotIds);
      && DistinctIds(prepared)
      && (forall slot :: slot in Slots(prepared) ==>
            Labeled(show, Group(prepared, slot), rows) == CountWritten(show, prepared, slot, rows))
      && LabeledAny(show, prepared, rows) == CountWrittenAny(show, prepared, rows)
  {
    var prepared := BuildState(rules, slotIds);
    BuildStateIsSound(rules, slotIds);
    forall slot | slot in Slots(prepared)
      ensures Labeled(show, Group(prepared, slot), rows) == CountWritten(show, prepared, slot, rows)
    {
      PreviewCountsWrites(show, prepared, slot, rows);
    }
    PreviewCountsWritesAny(show, prepared, rows);
  }

  /** The share of the products that a slot is written on, in percent and before rounding. */
  function Coverage(labeled: nat, total: nat): real {
    if total == 0 then 0.0 else labeled as real / total as real * 100.0
  }

  /** The preview of draft rules: its counts are those of the run that the same rules would make. */
  method Preview(
      show: Json -> string, rules: seq<Rule>, slotIds: map<string, set<string>>, rows: seq<Staged>, limit: nat)
    returns (stats: map<string, Stats>, slots: map<string, nat>, coverage: map<string, real>, any: nat)
    requires Validated(rules)
    ensures
      var prepared := BuildState(rules, slotIds);
      && (forall rule :: rule in prepared ==>
        rule.id in stats && stats[rule.id] == StatsOf(show, Group(prepared, rule.slot), rule, rows, limit))
      && (forall slot :: slot in slots <==> slot in Slots(prepared))
      && (forall slot :: slot in slots ==> slots[slot] == Labeled(show, Group(prepared, slot), rows))
      && any == LabeledAny(show, prepared, rows)
      && (PrintsSomething(show) ==>
        && (forall slot :: slot in slots ==> slots[slot] == CountWritten(show, prepared, slot, rows))
        && any == CountWrittenAny(show, prepared, rows))
    ensures coverage == map slot | slot in slots :: Coverage(slots[slot], |rows|)
    ensures rows != [] ==> forall slot :: slot in coverage ==>
      coverage[slot] * |rows| as real == 100.0 * slots[slot] as real
    ensures rows == [] ==> forall slot :: slot in coverage ==> coverage[slot] == 0.0
  {
    hide Group, Slots, StatsOf, Labeled, LabeledAny, CountWritten, CountWrittenAny, BuildState, DistinctIds;
    var prepared := PrepareRules(rules, slotIds);
    BuildStateIsSound(rules, slotIds);
    if PrintsSomething(show) { PreviewAgreesWithRun(show, rules, slotIds, rows); }
    stats, slots, any := EvaluateRules(show, prepared, rows, limit);
    coverage := map slot | slot in slots :: Coverage(slots[slot], |rows|);
  }

  /** A run: the rules are prepared once, and every product is processed with them. */
  method RunProducts(show: Json -> string, rules: seq<Rule>, slotIds: map<string, set<string>>, products: seq<Product>)
    returns (results: seq<Product>)
    ensures |results| == |products|
    ensures forall i :: 0 <= i < |products| ==> results[i] == Process(show, BuildState(rules, slotIds), products[i])
  {
    hide Process, BuildState;
    var prepared := PrepareRules(rules, slotIds);
    results := [];
    for i := 0 to |products|
      invariant |results| == i
      invariant forall k :: 0 <= k < i ==> results[k] == Process(show, prepared, products[k])
    {
      var result := ProcessProduct(show, prepared, products[i]);
      results := results + [result];
    }
  }

  /** Without validation they differ: a matching rule with an empty template is counted for every
      product and writes nothing. */
  lemma EmptyTemplateIsCountedNotWritten(show: Json -> string, rule: Prepared, p: Product)
    requires rule.all && rule.template == Compile("")
    ensures Counts(show, [rule], p) && !Writes(show, [rule], p)
  {
    assert rule.template == [];
    assert Labels(show, [rule][0], p);
  }

  // ----- Every counted product is credited once -----

  function Credits(show: Json -> string, group: seq<Prepared>, n: nat, rows: seq<Staged>, limit: nat): nat
    requires n <= |group|
  {
    if n == 0 then 0
    else Credits(show, group, n - 1, rows, limit) + StatsOf(show, group, group[n - 1], rows, limit).labeled
  }

  function FallbackWins(show: Json -> string, group: seq<Prepared>, rows: seq<Staged>): nat {
    if rows == [] then 0
    else
      var rest, p := rows[..|rows| - 1], rows[|rows| - 1].product;
      FallbackWins(show, group, rest) + (if Winner(show, group, p) == |group| && Counts(show, group, p) then 1 else 0)
  }

  lemma {:induction false} CreditsOneMore(
    show: Json -> string, group: seq<Prepared>, n: nat, rows: seq<Staged>, row: Staged, limit: nat)
    requires n <= |group| && DistinctIds(group)
    ensures Credits(show, group, n, rows + [row], limit) ==
      Credits(show, group, n, rows, limit) + (if Winner(show, group, row.product) < n then 1 else 0)
  {
    hide Matches, Render;
    if n > 0 {
      CreditsOneMore(show, group, n - 1, rows, row, limit);
      assert (rows + [row])[..|rows|] == rows;
      WinnerLabels(show, group, row.product);
    }
  }

  lemma {:induction false} NoCredits(show: Json -> string, group: seq<Prepared>, n: nat, limit: nat)
    requires n <= |group|
    ensures Credits(show, group, n, [], limit) == 0
  {
    if n > 0 { NoCredits(show, group, n - 1, limit); }
  }

  /** The products counted for a slot are those credited to its rules and to its fallback. */
  lemma {:induction false} CountedIsCreditedOnce(
    show: Json -> string, group: seq<Prepared>, rows: seq<Staged>, limit: nat)
    requires DistinctIds(group)
    ensures Labeled(show, group, rows) == Credits(show, group, |group|, rows, limit) + FallbackWins(show, group, rows)
  {
    hide DistinctIds, Winner, Fallback;
    if rows == [] {
      NoCredits(show, group, |group|, limit);
    } else {
      var rest, row := rows[..|rows| - 1], rows[|rows| - 1];
      CountedIsCreditedOnce(show, group, rest, limit);
      CreditsOneMore(show, group, |group|, rest, row, limit);
      assert rows == rest + [row];
    }
  }
}
