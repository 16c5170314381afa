/** What slot rules mean: which rule gives a slot its text, which slots a run writes, and what the
    statistics of the preview count. */
module LabelMeaning {
  import opened Counting
  import opened CustomLabels
  import opened Hashing
  import opened LabelTemplates
  import opened TemplateMeaning
  import opened Wrappers

  /** A draft rule applies to a product: to all of them, or to those whose field has one of its ids. */
  ghost predicate Applies(show: Json -> string, rule: Rule, slotIds: map<string, set<string>>, p: Product) {
    || rule.all
    || (rule.id in slotIds && exists text :: text in slotIds[rule.id] && HasText(show, p, rule.field, text))
  }

  /** The text of a template whose every token has one. */
  ghost predicate Reading(show: Json -> string, template: string, p: Product, text: string) {
    exists segments :: ReadAs(template, segments) && RendersTo(show, segments, p, text)
  }

  ghost predicate InSlot(rule: Rule, slot: string) {
    rule.active && rule.slot == slot
  }

  ghost predicate Offering(
    show: Json -> string, rule: Rule, slotIds: map<string, set<string>>, slot: string, p: Product,
      text: string)
  {
    InSlot(rule, slot) && Applies(show, rule, slotIds, p) && Reading(show, rule.template, p, text)
  }

  ghost predicate OffersNothing(show: Json -> string, rule: Rule, slotIds: map<string, set<string>>, slot: string,
      p: Product)
  {
    forall text :: !Offering(show, rule, slotIds, slot, p, text)
  }

  /** The first active rule of the slot that applies and has a text gives it. */
  ghost predicate RuleGives(show: Json -> string, rules: seq<Rule>, slotIds: map<string, set<string>>, slot: string,
      p: Product, n: nat, text: string)
  {
    && n < |rules| && Offering(show, rules[n], slotIds, slot, p, text)
    && forall k: nat | k < n :: OffersNothing(show, rules[k], slotIds, slot, p)
  }

  ghost predicate FirstInSlot(rules: seq<Rule>, slot: string, n: nat) {
    n < |rules| && InSlot(rules[n], slot) && forall k: nat | k < n :: !InSlot(rules[k], slot)
  }

  /** Some rule applies and none has a text: the fallback of the slot's first rule gives it. */
  ghost predicate FallbackGives(show: Json -> string, rules: seq<Rule>, slotIds: map<string, set<string>>,
      slot: string, p: Product, text: string)
  {
    && (forall k: nat | k < |rules| :: OffersNothing(show, rules[k], slotIds, slot, p))
    && (exists k: nat :: k < |rules| && InSlot(rules[k], slot) && Applies(show, rules[k], slotIds, p))
    && exists n: nat ::
      FirstInSlot(rules, slot, n) && rules[n].fallback != "" && Reading(show, rules[n].fallback, p, text)
  }

  ghost predicate Gives(show: Json -> string, rules: seq<Rule>, slotIds: map<string, set<string>>, slot: string,
      p: Product, text: string)
  {
    || (exists n: nat :: RuleGives(show, rules, slotIds, slot, p, n, text))
    || FallbackGives(show, rules, slotIds, slot, p, text)
  }

  // ----- Prepared rules and drafts -----

  function Ids(rule: Rule, slotIds: map<string, set<string>>): set<string> {
    if rule.id in slotIds then slotIds[rule.id] else {}
  }

  lemma ReadingIff(show: Json -> string, template: string, p: Product, text: string)
    ensures Reading(show, template, p, text) <==> Render(show, Compile(template), p) == Some(text)
  {
    hide ReadAs, RendersTo, Render, Compile;
    CompileIff(template, Compile(template));
    RendersIff(show, Compile(template), p, text);
    if segments :| ReadAs(template, segments) && RendersTo(show, segments, p, text) { CompileIff(template, segments); }
  }

  lemma AppliesIff(show: Json -> string, rule: Rule, slotIds: map<string, set<string>>, p: Product)
    ensures Applies(show, rule, slotIds, p) <==> Matches(show, Prepare(rule, Ids(rule, slotIds)), p)
  {
    hide Resolve, HasText, Compile;
    ResolveIff(show, p, rule.field);
  }

  lemma OfferingIff(show: Json -> string, rule: Rule, slotIds: map<string, set<string>>, slot: string, p: Product)
    requires InSlot(rule, slot)
    ensures OffersNothing(show, rule, slotIds, slot, p) <==> !Labels(show, Prepare(rule, Ids(rule, slotIds)), p)
    ensures forall text :: Offering(show, rule, slotIds, slot, p, text) <==>
      && Labels(show, Prepare(rule, Ids(rule, slotIds)), p)
      && Render(show, Compile(rule.template), p) == Some(text)
  {
    hide Applies, Reading, Matches, Render, Compile;
    AppliesIff(show, rule, slotIds, p);
    forall text ensures Reading(show, rule.template, p, text) <==> Render(show, Compile(rule.template), p) == Some(text)
    {
      ReadingIff(show, rule.template, p, text);
    }
    var rendered := Render(show, Compile(rule.template), p);
    assert Prepare(rule, Ids(rule, slotIds)).template == Compile(rule.template);
    if rendered.Some? {
      assert Offering(show, rule, slotIds, slot, p, rendered.value) <==> Applies(show, rule, slotIds, p);
    }
  }

  /** `at` lists the active drafts of a slot in order, and `group` is what they were prepared to. */
  ghost predicate Places(rules: seq<Rule>, slotIds: map<string, set<string>>, slot: string, group: seq<Prepared>,
      at: seq<nat>)
  {
    && |at| == |group|
    && (forall i :: 0 <= i < |at| ==> at[i] < |rules| && InSlot(rules[at[i]], slot))
    && (forall i :: 0 <= i < |at| ==> group[i] == Prepare(rules[at[i]], Ids(rules[at[i]], slotIds)))
    && (forall i, j :: 0 <= i < j < |at| ==> at[i] < at[j])
    && (forall k: nat | k < |rules| && InSlot(rules[k], slot) :: k in at)
  }

  lemma GroupOneMore(rules: seq<Rule>, slotIds: map<string, set<string>>, slot: string)
    requires rules != []
    ensures
      var before, last := Group(BuildState(rules[..|rules| - 1], slotIds), slot), rules[|rules| - 1];
      Group(BuildState(rules, slotIds), slot) ==
        if InSlot(last, slot) then before + [Prepare(last, Ids(last, slotIds))] else before
  {
    hide Compile;
    var state, last := BuildState(rules[..|rules| - 1], slotIds), rules[|rules| - 1];
    if last.active {
      var prepared := Prepare(last, Ids(last, slotIds));
      assert (state + [prepared])[..|state|] == state;
    } else {
      assert BuildState(rules, slotIds) == state + [] == state;
    }
  }

  lemma PlacesOneMore(rules: seq<Rule>, slotIds: map<string, set<string>>, slot: string, group: seq<Prepared>,
      at: seq<nat>)
    requires rules != [] && Places(rules[..|rules| - 1], slotIds, slot, group, at)
    ensures
      var n := |rules| - 1;
      if InSlot(rules[n], slot)
      then Places(rules, slotIds, slot, group + [Prepare(rules[n], Ids(rules[n], slotIds))], at + [n])
      else Places(rules, slotIds, slot, group, at)
  {
    hide Prepare, Ids, InSlot;
    var n := |rules| - 1;
    var rest := rules[..n];
    assert forall k: nat | k < n :: rest[k] == rules[k];
    if InSlot(rules[n], slot) {
      var longer := at + [n];
      forall k: nat | k < |rules| && InSlot(rules[k], slot) ensures k in longer {
        if k < n {
          assert k in at;
        } else {
          assert longer[|at|] == k;
        }
      }
    }
  }

  lemma {:induction false} PlacesOfGroup(rules: seq<Rule>, slotIds: map<string, set<string>>, slot: string)
    returns (at: seq<nat>)
    ensures Places(rules, slotIds, slot, Group(BuildState(rules, slotIds), slot), at)
  {
    hide Prepare, Ids, InSlot, Places;
    if rules == [] {
      at := [];
      NoPlaces(slotIds, slot);
    } else {
      var n := |rules| - 1;
      at := PlacesOfGroup(rules[..n], slotIds, slot);
      PlacesOneMore(rules, slotIds, slot, Group(BuildState(rules[..n], slotIds), slot), at);
      GroupOneMore(rules, slotIds, slot);
      if InSlot(rules[n], slot) { at := at + [n]; }
    }
  }

  lemma NoPlaces(slotIds: map<string, set<string>>, slot: string)
    ensures Places([], slotIds, slot, Group(BuildState([], slotIds), slot), [])
  {
  }

  // ----- The text of a slot -----

  lemma OthersOfferNothing(show: Json -> string, rules: seq<Rule>, slotIds: map<string, set<string>>, slot: string,
      p: Product, group: seq<Prepared>, at: seq<nat>, n: nat)
    requires Places(rules, slotIds, slot, group, at) && n <= |group|
    requires forall i :: 0 <= i < n ==> !Labels(show, group[i], p)
    ensures forall k: nat | k < (if n < |at| then at[n] else |rules|) :: OffersNothing(show, rules[k], slotIds, slot, p)
  {
    hide Labels, Prepare, Ids;
    var end := if n < |at| then at[n] else |rules|;
    forall k: nat | k < end ensures OffersNothing(show, rules[k], slotIds, slot, p) {
      if InSlot(rules[k], slot) {
        var i :| 0 <= i < |at| && at[i] == k;
        assert i < n;
        OfferingIff(show, rules[k], slotIds, slot, p);
      }
    }
  }

  /** A text of the slot, if it has one, is the one the drafts give, and they give no other. */
  lemma SlotTextIff(show: Json -> string, rules: seq<Rule>, slotIds: map<string, set<string>>, slot: string, p: Product,
      text: string)
    ensures
      var group := Group(BuildState(rules, slotIds), slot);
      group != [] && SlotText(show, group, p) == Some(text) <==> Gives(show, rules, slotIds, slot, p, text)
  {
    hide Labels, Prepare, Ids, Offering, OffersNothing, Gives, InSlot, Render, SlotText;
    var group := Group(BuildState(rules, slotIds), slot);
    var at := PlacesOfGroup(rules, slotIds, slot);
    var w := Winner(show, group, p);
    WinnerLabels(show, group, p);
    OthersOfferNothing(show, rules, slotIds, slot, p, group, at, w);
    if w < |group| {
      RuleWins(show, rules, slotIds, slot, p, group, at, w, text);
    } else {
      FallbackWins(show, rules, slotIds, slot, p, group, at, text);
    }
  }

  lemma RuleWins(show: Json -> string, rules: seq<Rule>, slotIds: map<string, set<string>>, slot: string,
      p: Product, group: seq<Prepared>, at: seq<nat>, w: nat, text: string)
    requires Places(rules, slotIds, slot, group, at) && w < |group| && w == Winner(show, group, p)
      && Labels(show, group[w], p)
    requires forall k: nat | k < at[w] :: OffersNothing(show, rules[k], slotIds, slot, p)
    ensures SlotText(show, group, p) == Some(text) <==> Gives(show, rules, slotIds, slot, p, text)
  {
    hide Labels, Ids, Offering, InSlot, Render, Compile;
    var n := at[w];
    OfferingIff(show, rules[n], slotIds, slot, p);
    assert !OffersNothing(show, rules[n], slotIds, slot, p);
    assert SlotText(show, group, p) == Render(show, Compile(rules[n].template), p);
    if k: nat :| RuleGives(show, rules, slotIds, slot, p, k, text) {
      assert k <= n && !(k < n);
    }
    if SlotText(show, group, p) == Some(text) { assert RuleGives(show, rules, slotIds, slot, p, n, text); }
  }

  lemma FallbackWins(show: Json -> string, rules: seq<Rule>, slotIds: map<string, set<string>>, slot: string,
      p: Product, group: seq<Prepared>, at: seq<nat>, text: string)
    requires Places(rules, slotIds, slot, group, at) && Winner(show, group, p) == |group|
    requires forall k: nat | k < |rules| :: OffersNothing(show, rules[k], slotIds, slot, p)
    ensures group != [] && SlotText(show, group, p) == Some(text) <==> Gives(show, rules, slotIds, slot, p, text)
  {
    hide Labels, Ids, Offering, InSlot, Render, Compile, Applies, Matches;
    assert forall n: nat :: !RuleGives(show, rules, slotIds, slot, p, n, text);
    SomeApplies(show, rules, slotIds, slot, p, group, at);
    if group == [] {
      assert at == [];
    } else {
      var n := at[0];
      FirstPlace(rules, slotIds, slot, group, at);
      ReadingIff(show, rules[n].fallback, p, text);
      NothingCompiled(rules[n].fallback);
      assert group[0].fallback == Compile(rules[n].fallback);
      assert SlotText(show, group, p) == Fallback(show, group, p);
    }
  }

  lemma SomeApplies(show: Json -> string, rules: seq<Rule>, slotIds: map<string, set<string>>, slot: string,
      p: Product, group: seq<Prepared>, at: seq<nat>)
    requires Places(rules, slotIds, slot, group, at)
    ensures AnyMatches(show, group, p) <==>
      exists k: nat :: k < |rules| && InSlot(rules[k], slot) && Applies(show, rules[k], slotIds, p)
  {
    hide Prepare, Ids, InSlot, Applies, Matches;
    forall k: nat | k < |rules|
      ensures Applies(show, rules[k], slotIds, p) <==> Matches(show, Prepare(rules[k], Ids(rules[k], slotIds)), p)
    {
      AppliesIff(show, rules[k], slotIds, p);
    }
    if AnyMatches(show, group, p) {
      var i :| 0 <= i < |group| && Matches(show, group[i], p);
      assert InSlot(rules[at[i]], slot) && Applies(show, rules[at[i]], slotIds, p);
    }
    if k: nat :| k < |rules| && InSlot(rules[k], slot) && Applies(show, rules[k], slotIds, p) {
      assert k in at;
      var i :| 0 <= i < |at| && at[i] == k;
      assert Matches(show, group[i], p);
    }
  }

  lemma FirstPlace(rules: seq<Rule>, slotIds: map<string, set<string>>, slot: string, group: seq<Prepared>,
      at: seq<nat>)
    requires Places(rules, slotIds, slot, group, at) && at != []
    ensures forall n: nat :: FirstInSlot(rules, slot, n) <==> n == at[0]
  {
    hide Prepare, Ids, InSlot;
  }

  lemma NothingCompiled(template: string)
    ensures Compile(template) == [] <==> template == ""
  {
    CompileIff(template, Compile(template));
    CompileIff(template, []);
  }

  /** A run writes exactly the slots to which the drafts give a text that is not empty, and leaves
      every other key as it is. */
  lemma RunLabels(show: Json -> string, rules: seq<Rule>, slotIds: map<string, set<string>>, p: Product, slot: string)
    ensures
      var labelled := Process(show, BuildState(rules, slotIds), p);
      && (forall text :: text != "" && Gives(show, rules, slotIds, slot, p, text) ==>
        slot in labelled && labelled[slot] == Str(text))
      && ((forall text :: Gives(show, rules, slotIds, slot, p, text) ==> text == "") ==>
        (slot in labelled <==> slot in p) && (slot in p ==> labelled[slot] == p[slot]))
  {
    hide Gives, Group, BuildState, Slots, SlotText;
    var state := BuildState(rules, slotIds);
    SlotsAreGroups(state, slot);
    var group := Group(state, slot);
    forall text
      ensures group != [] && SlotText(show, group, p) == Some(text) <==> Gives(show, rules, slotIds, slot, p, text)
    {
      SlotTextIff(show, rules, slotIds, slot, p, text);
    }
  }

  /** The preview credits an active draft with a product exactly when the draft gives the text. */
  lemma WinsIff(show: Json -> string, rules: seq<Rule>, slotIds: map<string, set<string>>, n: nat, p: Product)
    requires Validated(rules) && n < |rules| && rules[n].active
    ensures
      var slot := rules[n].slot;
      Wins(show, Group(BuildState(rules, slotIds), slot), Prepare(rules[n], Ids(rules[n], slotIds)), p) <==>
        exists text :: RuleGives(show, rules, slotIds, slot, p, n, text)
  {
    hide Labels, Ids, Offering, Render, Compile, Winner;
    var slot := rules[n].slot;
    var group := Group(BuildState(rules, slotIds), slot);
    var at := PlacesOfGroup(rules, slotIds, slot);
    var w := Winner(show, group, p);
    WinnerLabels(show, group, p);
    OthersOfferNothing(show, rules, slotIds, slot, p, group, at, w);
    if w < |group| {
      OfferingIff(show, rules[at[w]], slotIds, slot, p);
      assert group[w].id == rules[at[w]].id;
      assert group[w].id == rules[n].id <==> at[w] == n;
      var text :| Offering(show, rules[at[w]], slotIds, slot, p, text);
      assert RuleGives(show, rules, slotIds, slot, p, at[w], text);
      assert n < at[w] ==> OffersNothing(show, rules[n], slotIds, slot, p);
    } else {
      assert OffersNothing(show, rules[n], slotIds, slot, p);
    }
  }

  // ----- The statistics of the preview -----

  ghost function MatchedBefore(show: Json -> string, rule: Prepared, rows: seq<Staged>, n: nat): set<nat>
    requires n <= |rows|
  {
    set i: nat | i < n && Matches(show, rule, rows[i].product)
  }

  ghost function WonRows(show: Json -> string, group: seq<Prepared>, rule: Prepared, rows: seq<Staged>): set<nat> {
    set i: nat | i < |rows| && Wins(show, group, rule, rows[i].product) && Matches(show, rule, rows[i].product)
  }

  ghost predicate Sampled(show: Json -> string, rule: Prepared, rows: seq<Staged>, limit: nat, sample: seq<string>) {
    var total := |MatchedBefore(show, rule, rows, |rows|)|;
    && |sample| == (if total <= limit then total else limit)
    && forall i: nat | i < |rows| && Matches(show, rule, rows[i].product) ::
      var earlier := |MatchedBefore(show, rule, rows, i)|;
      earlier < limit ==> earlier < |sample| && sample[earlier] == rows[i].id
  }

  lemma MatchedOneMore(show: Json -> string, rule: Prepared, rows: seq<Staged>)
    requires rows != []
    ensures
      var n := |rows| - 1;
      && (forall i: nat | i <= n :: MatchedBefore(show, rule, rows[..n], i) == MatchedBefore(show, rule, rows, i))
      && |MatchedBefore(show, rule, rows, n + 1)| ==
        |MatchedBefore(show, rule, rows, n)| + if Matches(show, rule, rows[n].product) then 1 else 0
  {
    hide Matches;
    var n := |rows| - 1;
    OneMoreCounted(MatchedBefore(show, rule, rows, n), MatchedBefore(show, rule, rows, n + 1), n,
      Matches(show, rule, rows[n].product));
  }

  lemma SampledOneMore(show: Json -> string, rule: Prepared, rows: seq<Staged>, limit: nat, sample: seq<string>)
    requires rows != [] && Sampled(show, rule, rows[..|rows| - 1], limit, sample)
    ensures
      var row := rows[|rows| - 1];
      Sampled(show, rule, rows, limit,
        if Matches(show, rule, row.product) && |sample| < limit then sample + [row.id] else sample)
  {
    hide Matches, MatchedBefore;
    MatchedOneMore(show, rule, rows);
    var n := |rows| - 1;
    forall i: nat | i < n ensures rows[..n][i] == rows[i] {}
  }

  /** A rule's statistics: the products it matches, those it gives their text, and the ids of the
      first it matches. */
  lemma {:induction false} StatsAre(
    show: Json -> string, group: seq<Prepared>, rule: Prepared, rows: seq<Staged>, limit: nat)
    ensures
      var s := StatsOf(show, group, rule, rows, limit);
      && s.matched == |MatchedBefore(show, rule, rows, |rows|)|
      && s.labeled == |WonRows(show, group, rule, rows)|
      && Sampled(show, rule, rows, limit, s.sample)
  {
    hide Matches, Wins, Sampled, MatchedBefore, WonRows;
    if rows == [] {
      NothingMatched(show, group, rule, limit);
    } else {
      var n := |rows| - 1;
      var rest := rows[..n];
      StatsAre(show, group, rule, rest, limit);
      MatchedOneMore(show, rule, rows);
      SampledOneMore(show, rule, rows, limit, StatsOf(show, group, rule, rest, limit).sample);
      WonOneMore(show, group, rule, rows);
    }
  }

  lemma WonOneMore(show: Json -> string, group: seq<Prepared>, rule: Prepared, rows: seq<Staged>)
    requires rows != []
    ensures
      var p := rows[|rows| - 1].product;
      |WonRows(show, group, rule, rows)| == |WonRows(show, group, rule, rows[..|rows| - 1])|
        + if Matches(show, rule, p) && Wins(show, group, rule, p) then 1 else 0
  {
    hide Matches, Wins;
    var n := |rows| - 1;
    OneMoreCounted(WonRows(show, group, rule, rows[..n]), WonRows(show, group, rule, rows), n,
      Matches(show, rule, rows[n].product) && Wins(show, group, rule, rows[n].product));
  }

  lemma NothingMatched(show: Json -> string, group: seq<Prepared>, rule: Prepared, limit: nat)
    ensures MatchedBefore(show, rule, [], 0) == {} && WonRows(show, group, rule, []) == {}
    ensures Sampled(show, rule, [], limit, [])
  {
  }

  ghost function CountedRows(show: Json -> string, group: seq<Prepared>, rows: seq<Staged>): set<nat> {
    set i: nat | i < |rows| && Counts(show, group, rows[i].product)
  }

  /** The counts of the preview are those of the products it counts. */
  lemma {:induction false} LabeledAre(show: Json -> string, group: seq<Prepared>, rows: seq<Staged>)
    ensures Labeled(show, group, rows) == |CountedRows(show, group, rows)|
  {
    hide Counts;
    if rows != [] {
      var n := |rows| - 1;
      LabeledAre(show, group, rows[..n]);
      OneMoreCounted(CountedRows(show, group, rows[..n]), CountedRows(show, group, rows), n,
        Counts(show, group, rows[n].product));
    }
  }

  ghost predicate SomeSlotCounts(show: Json -> string, rules: seq<Prepared>, p: Product) {
    exists slot :: Counts(show, Group(rules, slot), p)
  }

  ghost function CountedAnywhere(show: Json -> string, rules: seq<Prepared>, rows: seq<Staged>): set<nat> {
    set i: nat | i < |rows| && SomeSlotCounts(show, rules, rows[i].product)
  }

  lemma {:induction false} LabeledAnyAre(show: Json -> string, rules: seq<Prepared>, rows: seq<Staged>)
    ensures LabeledAny(show, rules, rows) == |CountedAnywhere(show, rules, rows)|
  {
    hide CountsAny, Slots, SomeSlotCounts;
    if rows != [] {
      var n := |rows| - 1;
      LabeledAnyAre(show, rules, rows[..n]);
      CountsAnyIff(show, rules, rows[n].product);
      OneMoreCounted(CountedAnywhere(show, rules, rows[..n]), CountedAnywhere(show, rules, rows), n,
        SomeSlotCounts(show, rules, rows[n].product));
    }
  }

  lemma CountsAnyIff(show: Json -> string, rules: seq<Prepared>, p: Product)
    ensures CountsAny(show, rules, Slots(rules), p) <==> SomeSlotCounts(show, rules, p)
  {
    hide Group, Slots, Counts;
    EmptyGroupCountsNothing(show, p);
    if slot :| Counts(show, Group(rules, slot), p) {
      SlotsAreGroups(rules, slot);
      assert slot in Slots(rules);
    }
  }

  lemma EmptyGroupCountsNothing(show: Json -> string, p: Product)
    ensures !Counts(show, [], p)
  {
  }
}
