/**
 The trade registry: an inverted index from labels to trades, and the categories
 reachable from each group of trades.
 */
module TradeRegistry {
  import opened Wrappers
  import opened PhraseWords

  const MATCHES_NOTHING := "other"

  datatype Profession = Profession(
    id: string,
    name: string,
    groupId: Option<string>,
    categoryId: Option<string>,
    aliases: seq<string>)

  datatype Category = Category(id: string, name: string)

  datatype Registry = Registry(
    byId: map<string, Profession>,
    categoryNameById: map<string, string>,
    categoryNames: seq<string>,
    groupCategoryNames: map<string, set<string>>,
    tradesByLabel: map<string, set<string>>)

  function Norm(lower: Lower, s: string): string {
    lower(Trim(s))
  }

  /** A nullable string that is also not empty. */
  predicate Truthy(s: Option<string>) {
    s.Some? && s.value != ""
  }

  predicate Meaningful(key: string) {
    key != "" && key != MATCHES_NOTHING
  }

  /** A trade that is kept at all. */
  predicate Kept(p: Profession) {
    p.id != MATCHES_NOTHING
  }

  // ---------------------------------------------------------------- the scan

  /** categories.id -> categories.name, the last row of an id winning. */
  function CategoryNames(categories: seq<Category>): map<string, string> {
    if categories == [] then map[]
    else
      var c := categories[|categories| - 1];
      CategoryNames(categories[..|categories| - 1])[c.id := c.name]
  }

  function ById(professions: seq<Profession>): map<string, Profession> {
    if professions == [] then map[]
    else
      var p := professions[|professions| - 1];
      var before := ById(professions[..|professions| - 1]);
      if Kept(p) then before[p.id := p] else before
  }

  function CategoryNameOf(names: map<string, string>, p: Profession): Option<string> {
    if Truthy(p.categoryId) && p.categoryId.value in names && names[p.categoryId.value] != "" then
      Some(names[p.categoryId.value])
    else None
  }

  /** The labels that name a trade: its name, its aliases, and the category it maps to. */
  function RawLabels(names: map<string, string>, p: Profession): seq<string> {
    [p.name] + p.aliases + (if CategoryNameOf(names, p).Some? then [CategoryNameOf(names, p).value] else [])
  }

  /** One of the labels, normalised, is the key. */
  predicate Named(lower: Lower, labels: seq<string>, key: string) {
    Meaningful(key) && exists i :: 0 <= i < |labels| && Norm(lower, labels[i]) == key
  }

  predicate IsLabelOf(lower: Lower, names: map<string, string>, p: Profession, key: string) {
    Named(lower, RawLabels(names, p), key)
  }

  /** The ids of the kept trades that a label names, by scanning all of them. */
  function TradesNamed(lower: Lower, names: map<string, string>, professions: seq<Profession>,
                       key: string): set<string> {
    set p | p in professions && Kept(p) && IsLabelOf(lower, names, p, key) :: p.id
  }

  /** The category names reachable from a group, by scanning. */
  function NamesOfGroup(lower: Lower, names: map<string, string>, professions: seq<Profession>,
                        group: string): set<string> {
    set p | p in professions && Kept(p) && p.groupId == Some(group) && group != "" && CategoryNameOf(names, p).Some?
      :: Norm(lower, CategoryNameOf(names, p).value)
  }

  /** Looking a key up in an index: a missing key is an empty set. */
  function At(index: map<string, set<string>>, key: string): set<string> {
    if key in index then index[key] else {}
  }

  function MeaningfulNames(lower: Lower, categories: seq<Category>): seq<string> {
    if categories == [] then []
    else
      var n := Norm(lower, categories[|categories| - 1].name);
      MeaningfulNames(lower, categories[..|categories| - 1]) + (if Meaningful(n) then [n] else [])
  }

  /** The index answers every lookup as the scan would. */
  ghost predicate Indexes(r: Registry, lower: Lower, professions: seq<Profession>, categories: seq<Category>) {
    && r.byId == ById(professions)
    && r.categoryNameById == CategoryNames(categories)
    && r.categoryNames == MeaningfulNames(lower, categories)
    && LabelsIndexed(r.tradesByLabel, lower, r.categoryNameById, professions)
    && GroupsIndexed(r.groupCategoryNames, lower, r.categoryNameById, professions)
  }

  /** The name a category id stands for: that of its last row. */
  ghost predicate NamedBy(categories: seq<Category>, id: string, name: string) {
    exists k :: 0 <= k < |categories| && LastOf(categories, id, k) && categories[k].name == name
  }

  ghost predicate LastOf(categories: seq<Category>, id: string, k: nat) {
    k < |categories| && categories[k].id == id && forall m :: k < m < |categories| ==> categories[m].id != id
  }

  lemma {:induction false} CategoryNamesIff(categories: seq<Category>, id: string, name: string)
    ensures var names := CategoryNames(categories);
            id in names && names[id] == name <==> NamedBy(categories, id, name)
  {
    if categories != [] {
      var n := |categories| - 1;
      var rest := categories[..n];
      CategoryNamesIff(rest, id, name);
      assert categories[n].id == id ==> LastOf(categories, id, n);
      if NamedBy(rest, id, name) && categories[n].id != id {
        var k :| 0 <= k < n && LastOf(rest, id, k) && rest[k].name == name;
        assert LastOf(categories, id, k);
      }
      if NamedBy(categories, id, name) {
        var k :| 0 <= k <= n && LastOf(categories, id, k) && categories[k].name == name;
        assert k < n ==> categories[n].id != id && LastOf(rest, id, k);
      }
    }
  }

  /** The name of the trade's category, where it has one and that one has a name. */
  ghost predicate MapsTo(categories: seq<Category>, p: Profession, name: string) {
    p.categoryId.Some? && p.categoryId.value != "" && name != "" && NamedBy(categories, p.categoryId.value, name)
  }

  lemma MapsToIff(categories: seq<Category>, p: Profession, name: string)
    ensures CategoryNameOf(CategoryNames(categories), p) == Some(name) <==> MapsTo(categories, p, name)
  {
    if p.categoryId.Some? {
      CategoryNamesIff(categories, p.categoryId.value, name);
    }
  }

  /** The text is not empty and not "other", and trimmed and lowercased it is the key. */
  ghost predicate Spells(lower: Lower, text: string, key: string) {
    lower(Trim(text)) == key && key != "" && key != "other"
  }

  /** A label names a trade exactly if it spells the trade's name, one of its aliases, or the name of
      the category it maps to. */
  lemma IsLabelIff(lower: Lower, categories: seq<Category>, p: Profession, key: string)
    ensures IsLabelOf(lower, CategoryNames(categories), p, key) <==>
              || Spells(lower, p.name, key)
              || (exists alias :: alias in p.aliases && Spells(lower, alias, key))
              || (exists name :: MapsTo(categories, p, name) && Spells(lower, name, key))
  {
    var names := CategoryNames(categories);
    var labels := RawLabels(names, p);
    forall name ensures CategoryNameOf(names, p) == Some(name) <==> MapsTo(categories, p, name) {
      MapsToIff(categories, p, name);
    }
    assert labels[0] == p.name;
    assert forall k :: 0 <= k < |p.aliases| ==> labels[k + 1] == p.aliases[k];
    assert CategoryNameOf(names, p).Some? ==> labels[|labels| - 1] == CategoryNameOf(names, p).value;
    assert forall k :: 0 <= k < |labels| ==>
      labels[k] == p.name || labels[k] in p.aliases || CategoryNameOf(names, p) == Some(labels[k]);
    assert forall text :: text in labels <==>
      text == p.name || text in p.aliases || CategoryNameOf(names, p) == Some(text);
    assert IsLabelOf(lower, names, p, key) <==> exists text :: text in labels && Spells(lower, text, key);
  }

  /** The trade an id stands for is its last row; no trade has the id "other". */
  lemma {:induction false} ByIdIff(professions: seq<Profession>, id: string, p: Profession)
    ensures id in ById(professions) && ById(professions)[id] == p <==>
              id != "other" && exists k :: 0 <= k < |professions| && LastRow(professions, id, k) && professions[k] == p
  {
    if professions != [] {
      var n := |professions| - 1;
      var rest := professions[..n];
      ByIdIff(rest, id, p);
      assert professions[n].id == id ==> LastRow(professions, id, n);
      if k :| 0 <= k < n && LastRow(rest, id, k) && rest[k] == p {
        assert professions[n].id != id ==> LastRow(professions, id, k);
      }
      if k :| 0 <= k <= n && LastRow(professions, id, k) && professions[k] == p {
        assert k < n ==> professions[n].id != id && LastRow(rest, id, k);
      }
    }
  }

  ghost predicate LastRow(professions: seq<Profession>, id: string, k: nat) {
    k < |professions| && professions[k].id == id && forall m :: k < m < |professions| ==> professions[m].id != id
  }

  // ---------------------------------------------------------------- building the index

  /** Adds one label of one trade. */
  method Index(lower: Lower, index: map<string, set<string>>, text: string, id: string)
    returns (r: map<string, set<string>>)
    ensures forall key :: At(r, key) ==
              At(index, key) + (if key == Norm(lower, text) && Meaningful(key) then {id} else {})
  {
    var key := Norm(lower, text);
    if key == "" || key == MATCHES_NOTHING {
      return index;
    }
    var ids := if key in index then index[key] else {};
    r := index[key := ids + {id}];
  }

  /** Adds all labels of one trade. */
  method IndexAll(lower: Lower, index: map<string, set<string>>, labels: seq<string>, id: string)
    returns (r: map<string, set<string>>)
    ensures forall key :: At(r, key) == At(index, key) + (if Named(lower, labels, key) then {id} else {})
  {
    r := index;
    for i := 0 to |labels|
      invariant forall key :: At(r, key) == At(index, key) + (if Named(lower, labels[..i], key) then {id} else {})
    {
      ghost var before := r;
      r := Index(lower, r, labels[i], id);
      forall key
        ensures Named(lower, labels[..i + 1], key) <==>
                  Named(lower, labels[..i], key) || (Meaningful(key) && Norm(lower, labels[i]) == key)
      {
        NamedGrows(lower, labels, i, key);
      }
    }
    assert labels[..|labels|] == labels;
  }

  lemma NamedGrows(lower: Lower, labels: seq<string>, i: nat, key: string)
    requires i < |labels|
    ensures Named(lower, labels[..i + 1], key) <==>
              Named(lower, labels[..i], key) || (Meaningful(key) && Norm(lower, labels[i]) == key)
  {
  }

  method MapCategories(categories: seq<Category>) returns (names: map<string, string>)
    ensures names == CategoryNames(categories)
  {
    names := map[];
    for i := 0 to |categories|
      invariant names == CategoryNames(categories[..i])
    {
      assert categories[..i + 1][..i] == categories[..i];
      names := names[categories[i].id := categories[i].name];
    }
    assert categories[..|categories|] == categories;
  }

  method NamesForLooseLabels(lower: Lower, categories: seq<Category>) returns (out: seq<string>)
    ensures out == MeaningfulNames(lower, categories)
  {
    out := [];
    for i := 0 to |categories|
      invariant out == MeaningfulNames(lower, categories[..i])
    {
      assert categories[..i + 1][..i] == categories[..i];
      var n := Norm(lower, categories[i].name);
      if n != "" && n != MATCHES_NOTHING {
        out := out + [n];
      }
    }
    assert categories[..|categories|] == categories;
  }

  ghost predicate LabelsIndexed(labels: map<string, set<string>>, lower: Lower, names: map<string, string>,
                                professions: seq<Profession>) {
    forall key :: At(labels, key) == TradesNamed(lower, names, professions, key)
  }

  ghost predicate GroupsIndexed(groups: map<string, set<string>>, lower: Lower, names: map<string, string>,
                                professions: seq<Profession>) {
    forall g :: At(groups, g) == NamesOfGroup(lower, names, professions, g)
  }

  /** The trade itself, if the label names it. */
  function IdIfNamed(lower: Lower, names: map<string, string>, p: Profession, key: string): set<string> {
    if Kept(p) && IsLabelOf(lower, names, p, key) then {p.id} else {}
  }

  /** The category name the trade adds to a group. */
  function NameIfInGroup(lower: Lower, names: map<string, string>, p: Profession, g: string): set<string> {
    if Kept(p) && Truthy(p.groupId) && p.groupId.value == g && CategoryNameOf(names, p).Some? then
      {Norm(lower, CategoryNameOf(names, p).value)}
    else {}
  }

  lemma LabelsStep(labels: map<string, set<string>>, labels': map<string, set<string>>, lower: Lower,
                   names: map<string, string>, done: seq<Profession>, p: Profession)
    requires LabelsIndexed(labels, lower, names, done)
    requires forall key :: At(labels', key) == At(labels, key) + IdIfNamed(lower, names, p, key)
    ensures LabelsIndexed(labels', lower, names, done + [p])
  {
  }

  lemma GroupsStep(groups: map<string, set<string>>, groups': map<string, set<string>>, lower: Lower,
                   names: map<string, string>, done: seq<Profession>, p: Profession)
    requires GroupsIndexed(groups, lower, names, done)
    requires forall g :: At(groups', g) == At(groups, g) + NameIfInGroup(lower, names, p, g)
    ensures GroupsIndexed(groups', lower, names, done + [p])
  {
  }

  /** Adds one trade's labels and its group's category name. */
  method AddTrade(lower: Lower, names: map<string, string>, p: Profession, labels: map<string, set<string>>,
                  groups: map<string, set<string>>)
    returns (labels': map<string, set<string>>, groups': map<string, set<string>>)
    ensures forall key :: At(labels', key) == At(labels, key) + IdIfNamed(lower, names, p, key)
    ensures forall g :: At(groups', g) == At(groups, g) + NameIfInGroup(lower, names, p, g)
  {
    labels', groups' := labels, groups;
    if p.id == MATCHES_NOTHING {
      return;
    }
    labels' := IndexAll(lower, labels, RawLabels(names, p), p.id);
    var categoryName := CategoryNameOf(names, p);
    if categoryName.Some? && Truthy(p.groupId) {
      var g := p.groupId.value;
      var known := if g in groups then groups[g] else {};
      groups' := groups[g := known + {Norm(lower, categoryName.value)}];
    }
  }

  /** The index equals the scan: every lookup gives the set a full scan of the trades defines. */
  method BuildRegistry(lower: Lower, professions: seq<Profession>, categories: seq<Category>) returns (r: Registry)
    ensures Indexes(r, lower, professions, categories)
  {
    var names := MapCategories(categories);
    var byId: map<string, Profession> := map[];
    var groups: map<string, set<string>> := map[];
    var labels: map<string, set<string>> := map[];
    for i := 0 to |professions|
      invariant byId == ById(professions[..i])
      invariant LabelsIndexed(labels, lower, names, professions[..i])
      invariant GroupsIndexed(groups, lower, names, professions[..i])
    {
      var p := professions[i];
      if p.id != MATCHES_NOTHING {
        byId := byId[p.id := p];
      }
      var labels', groups' := AddTrade(lower, names, p, labels, groups);
      LabelsStep(labels, labels', lower, names, professions[..i], p);
      GroupsStep(groups, groups', lower, names, professions[..i], p);
      assert professions[..i + 1] == professions[..i] + [p];
      labels, groups := labels', groups';
    }
    assert professions[..|professions|] == professions;
    var looseNames := NamesForLooseLabels(lower, categories);
    r := Registry(byId, names, looseNames, groups, labels);
  }

  // ---------------------------------------------------------------- resolving a label

  /** The trades a label names: exactly, or loosely through the words of a category name. */
  datatype Resolved = Resolved(exact: set<string>, loose: set<string>)

  /** One padded string contains the other, either way. */
  predicate SharesWords(lower: Lower, key: string, name: string) {
    var words, nameWords := WordsOf(lower, key), WordsOf(lower, name);
    Includes(nameWords, words) || Includes(words, nameWords)
  }

  /** The trades of the listed category names that share words with the key. */
  function LooseTrades(lower: Lower, registry: Registry, key: string, names: seq<string>): set<string> {
    if names == [] then {}
    else
      LooseTrades(lower, registry, key, names[..|names| - 1])
      + (if SharesWords(lower, key, names[|names| - 1]) then At(registry.tradesByLabel, names[|names| - 1]) else {})
  }

  lemma {:induction false} LooseTradesIff(lower: Lower, registry: Registry, key: string, names: seq<string>, id: string)
    ensures id in LooseTrades(lower, registry, key, names) <==>
              exists name :: name in names && SharesWords(lower, key, name) && id in At(registry.tradesByLabel, name)
  {
    if names != [] {
      LooseTradesIff(lower, registry, key, names[..|names| - 1], id);
      assert names == names[..|names| - 1] + [names[|names| - 1]];
    }
  }

  function ResolvedLabel(lower: Lower, registry: Registry, text: string): Resolved {
    var key := Norm(lower, text);
    if !Meaningful(key) then Resolved({}, {})
    else
      var exact := At(registry.tradesByLabel, key);
      Resolved(exact, if exact != {} then {} else LooseTrades(lower, registry, key, registry.categoryNames))
  }

  method ResolveLoosely(lower: Lower, registry: Registry, key: string) returns (loose: set<string>)
    ensures loose == LooseTrades(lower, registry, key, registry.categoryNames)
  {
    loose := {};
    var names := registry.categoryNames;
    for i := 0 to |names|
      invariant loose == LooseTrades(lower, registry, key, names[..i])
    {
      assert names[..i + 1][..i] == names[..i];
      if SharesWords(lower, key, names[i]) {
        loose := loose + At(registry.tradesByLabel, names[i]);
      }
    }
    assert names[..|names|] == names;
  }

  method ResolveLabel(lower: Lower, registry: Registry, text: string) returns (r: Resolved)
    ensures r == ResolvedLabel(lower, registry, text)
  {
    var key := Norm(lower, text);
    if key == "" || key == MATCHES_NOTHING {
      return Resolved({}, {});
    }
    var exact := At(registry.tradesByLabel, key);
    if exact != {} {
      return Resolved(exact, {});
    }
    var loose := ResolveLoosely(lower, registry, key);
    r := Resolved(exact, loose);
  }

  /** Two texts share words when one's words are a contiguous block of the other's; a text without
      words shares only with another such text. */
  lemma SharesWordsIff(lower: Lower, key: string, name: string)
    ensures var ks, ns := Runs(lower(key)), Runs(lower(name));
            SharesWords(lower, key, name) <==>
              if ks == [] || ns == [] then ks == ns else Block(ns, ks) || Block(ks, ns)
  {
    IncludesIff(Runs(lower(name)), Runs(lower(key)));
    IncludesIff(Runs(lower(key)), Runs(lower(name)));
    if Runs(lower(key)) == [] {
      assert Block(Runs(lower(key)), Runs(lower(name))) ==> Runs(lower(name)) == [];
    }
  }

  /** Some kept trade with this id carries the label. */
  ghost predicate Carries(lower: Lower, registry: Registry, professions: seq<Profession>, key: string, id: string) {
    exists p :: p in professions && Kept(p) && IsLabelOf(lower, registry.categoryNameById, p, key) && p.id == id
  }

  /** A label is resolved exactly by every kept trade that carries it; only a label no trade
      carries is resolved loosely, by the trades of every category it shares words with. */
  lemma ResolvedIff(lower: Lower, registry: Registry, professions: seq<Profession>, categories: seq<Category>,
                    text: string, id: string)
    requires Indexes(registry, lower, professions, categories)
    ensures var key := Norm(lower, text);
            var r := ResolvedLabel(lower, registry, text);
            && (id in r.exact <==> Carries(lower, registry, professions, key, id))
            && (id in r.loose <==>
                  && Meaningful(key) && r.exact == {}
                  && exists name :: name in registry.categoryNames && SharesWords(lower, key, name)
                                    && Carries(lower, registry, professions, name, id))
  {
    var key := Norm(lower, text);
    assert At(registry.tradesByLabel, key) == TradesNamed(lower, registry.categoryNameById, professions, key);
    LooseTradesIff(lower, registry, key, registry.categoryNames, id);
    forall name ensures id in At(registry.tradesByLabel, name) <==> Carries(lower, registry, professions, name, id) {
      assert At(registry.tradesByLabel, name) == TradesNamed(lower, registry.categoryNameById, professions, name);
    }
  }
}
