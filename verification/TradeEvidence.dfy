/**
 What the tiers mean in terms of the professions and categories tables alone: no registry, no
 resolved labels and no lists of trades.
 */
module TradeEvidence {
  import opened Wrappers
  import opened PhraseWords
  import opened TradeRegistry
  import opened TradeMatching
  import opened CandidateRanking

  datatype Tables = Tables(lower: Lower, professions: seq<Profession>, categories: seq<Category>)

  function Key(t: Tables, text: string): string {
    t.lower(Trim(text))
  }

  /** The row an id stands for. */
  ghost predicate IsTrade(t: Tables, id: string, p: Profession) {
    id != "other" && exists k :: 0 <= k < |t.professions| && LastRow(t.professions, id, k) && t.professions[k] == p
  }

  /** The trade's name, an alias or its category's name spells the key. */
  ghost predicate Labelled(t: Tables, p: Profession, key: string) {
    || Spells(t.lower, p.name, key)
    || (exists alias :: alias in p.aliases && Spells(t.lower, alias, key))
    || (exists name :: MapsTo(t.categories, p, name) && Spells(t.lower, name, key))
  }

  /** Some trade of this id is labelled with the key. */
  ghost predicate Exactly(t: Tables, key: string, id: string) {
    id != "other" && exists p :: p in t.professions && p.id == id && Labelled(t, p, key)
  }

  ghost predicate Nobody(t: Tables, key: string) {
    forall id :: !Exactly(t, key, id)
  }

  /** No trade is labelled with the key, and a category shares words with it whose name labels this one. */
  ghost predicate Loosely(t: Tables, key: string, id: string) {
    && key != "" && key != "other" && Nobody(t, key)
    && exists c :: c in t.categories && Overlap(Runs(t.lower(key)), Runs(t.lower(Key(t, c.name))))
                   && Exactly(t, Key(t, c.name), id)
  }

  /** One list of words is a block of the other. */
  ghost predicate Overlap(ks: seq<string>, ns: seq<string>) {
    if ks == [] || ns == [] then ks == ns else Block(ns, ks) || Block(ks, ns)
  }

  /** The table maps the trade to this category. */
  ghost predicate InCategory(t: Tables, p: Profession, key: string) {
    exists name :: MapsTo(t.categories, p, name) && Key(t, name) == key
  }

  // ---------------------------------------------------------------- the registry, by the tables

  lemma LabelledIff(t: Tables, registry: Registry, p: Profession, key: string)
    requires Indexes(registry, t.lower, t.professions, t.categories)
    ensures IsLabelOf(t.lower, registry.categoryNameById, p, key) <==> Labelled(t, p, key)
  {
    IsLabelIff(t.lower, t.categories, p, key);
  }

  lemma CarriesIff(t: Tables, registry: Registry, key: string, id: string)
    requires Indexes(registry, t.lower, t.professions, t.categories)
    ensures Carries(t.lower, registry, t.professions, key, id) <==> Exactly(t, key, id)
  {
    forall p {
      LabelledIff(t, registry, p, key);
    }
  }

  lemma {:induction false} NamesIff(lower: Lower, categories: seq<Category>, name: string)
    ensures name in MeaningfulNames(lower, categories) <==>
              name != "" && name != "other" && exists c :: c in categories && lower(Trim(c.name)) == name
  {
    if categories != [] {
      var n := |categories| - 1;
      NamesIff(lower, categories[..n], name);
      assert categories == categories[..n] + [categories[n]];
    }
  }

  /** A label claims exactly the trades labelled with it, and loosely those of overlapping categories. */
  lemma LabelIff(t: Tables, registry: Registry, text: string, id: string)
    requires Indexes(registry, t.lower, t.professions, t.categories)
    ensures var r := ResolvedLabel(t.lower, registry, text);
            && (id in r.exact <==> Exactly(t, Key(t, text), id))
            && (id in r.loose <==> Loosely(t, Key(t, text), id))
  {
    var key := Key(t, text);
    var r := ResolvedLabel(t.lower, registry, text);
    ResolvedIff(t.lower, registry, t.professions, t.categories, text, id);
    CarriesIff(t, registry, key, id);
    forall other ensures other in r.exact <==> Exactly(t, key, other) {
      ResolvedIff(t.lower, registry, t.professions, t.categories, text, other);
      CarriesIff(t, registry, key, other);
    }
    assert r.exact == {} <==> Nobody(t, key);
    forall name
      ensures SharesWords(t.lower, key, name) <==> Overlap(Runs(t.lower(key)), Runs(t.lower(name)))
      ensures Carries(t.lower, registry, t.professions, name, id) <==> Exactly(t, name, id)
      ensures name in registry.categoryNames <==>
                name != "" && name != "other" && exists c :: c in t.categories && Key(t, c.name) == name
    {
      SharesWordsIff(t.lower, key, name);
      CarriesIff(t, registry, name, id);
      NamesIff(t.lower, t.categories, name);
    }
  }

  lemma IsTradeIff(t: Tables, registry: Registry, id: string, p: Profession)
    requires Indexes(registry, t.lower, t.professions, t.categories)
    ensures IsTrade(t, id, p) <==> id in registry.byId && registry.byId[id] == p
    ensures IsTrade(t, id, p) ==> p.id == id
  {
    ByIdIff(t.professions, id, p);
  }

  /** Whoever is labelled has a row. */
  lemma ExactlyHasRow(t: Tables, registry: Registry, key: string, id: string)
    requires Indexes(registry, t.lower, t.professions, t.categories) && Exactly(t, key, id)
    ensures id in registry.byId && IsTrade(t, id, registry.byId[id])
  {
    var p :| p in t.professions && p.id == id && Labelled(t, p, key);
    LastRowExists(t.professions, id, p);
    var k :| 0 <= k < |t.professions| && LastRow(t.professions, id, k);
    IsTradeIff(t, registry, id, t.professions[k]);
  }

  lemma {:induction false} LastRowExists(professions: seq<Profession>, id: string, p: Profession)
    requires p in professions && p.id == id
    ensures exists k :: 0 <= k < |professions| && LastRow(professions, id, k)
  {
    var n := |professions| - 1;
    if professions[n].id == id {
      assert LastRow(professions, id, n);
    } else {
      assert p in professions[..n];
      LastRowExists(professions[..n], id, p);
      var k :| 0 <= k < n && LastRow(professions[..n], id, k);
      assert LastRow(professions, id, k);
    }
  }

  /** Some trade of the group is in the category. */
  ghost predicate GroupServes(t: Tables, group: string, key: string) {
    exists q :: q in t.professions && q.id != "other" && q.groupId == Some(group) && InCategory(t, q, key)
  }

  lemma GroupServesIff(t: Tables, registry: Registry, group: string, key: string)
    requires Indexes(registry, t.lower, t.professions, t.categories) && group != ""
    ensures key in At(registry.groupCategoryNames, group) <==> GroupServes(t, group, key)
  {
    var names := registry.categoryNameById;
    assert At(registry.groupCategoryNames, group) == NamesOfGroup(t.lower, names, t.professions, group);
    forall q, name {
      MapsToIff(t.categories, q, name);
    }
  }

  /** The trade's name or an alias, of three characters or more. */
  ghost predicate IsToken(t: Tables, p: Profession, token: string) {
    |token| >= 3 && (token == Key(t, p.name) || exists alias :: alias in p.aliases && token == Key(t, alias))
  }

  lemma TokensOfRow(t: Tables, registry: Registry, id: string, p: Profession, token: string)
    requires id in registry.byId && registry.byId[id] == p
    ensures token in TradeOf(t.lower, registry, id).value.tokens <==> IsToken(t, p, token)
  {
    var tokens, texts := TradeOf(t.lower, registry, id).value.tokens, [p.name] + p.aliases;
    assert token in tokens <==> |token| >= 3 && exists i :: 0 <= i < |texts| && Norm(t.lower, texts[i]) == token;
    if i :| 0 <= i < |texts| && Norm(t.lower, texts[i]) == token {
      assert texts[i] == p.name || texts[i] in p.aliases;
    }
    assert texts[0] == p.name;
    if alias :| alias in p.aliases && token == Key(t, alias) {
      var k :| 0 <= k < |p.aliases| && p.aliases[k] == alias;
      assert texts[k + 1] == alias;
    }
  }

  lemma CategoriesOfRow(t: Tables, registry: Registry, id: string, p: Profession, key: string)
    requires registry.categoryNameById == CategoryNames(t.categories) && id in registry.byId && registry.byId[id] == p
    ensures key in TradeOf(t.lower, registry, id).value.categoryNames <==> InCategory(t, p, key)
  {
    forall name {
      MapsToIff(t.categories, p, name);
    }
  }

  /** The trade the matcher works with is the row's. */
  lemma TradeOfRow(t: Tables, registry: Registry, id: string, p: Profession)
    requires Indexes(registry, t.lower, t.professions, t.categories) && IsTrade(t, id, p)
    ensures var trade := TradeOf(t.lower, registry, id);
            && trade.Some? && trade.value.id == id && trade.value.name == p.name
            && trade.value.groupId == p.groupId && !trade.value.loose
            && (forall key :: key in trade.value.categoryNames <==> InCategory(t, p, key))
            && (forall token :: token in trade.value.tokens <==> IsToken(t, p, token))
  {
    IsTradeIff(t, registry, id, p);
    forall key {
      CategoriesOfRow(t, registry, id, p, key);
    }
    forall token {
      TokensOfRow(t, registry, id, p, token);
    }
  }

  // ---------------------------------------------------------------- one trade and a request

  function Wish(t: Tables, request: RequestText): string { Key(t, request.category) }

  /** The request is filed under a category of its own. */
  predicate Filed(t: Tables, request: RequestText) { Wish(t, request) != "" && Wish(t, request) != "other" }

  /** The request's category names the trade, exactly or loosely. */
  ghost predicate Wanted(t: Tables, request: RequestText, id: string) {
    Exactly(t, Key(t, Wish(t, request)), id) || Loosely(t, Key(t, Wish(t, request)), id)
  }

  /** The trade is in the request's category, or the category is one of its labels. */
  ghost predicate SameWork(t: Tables, request: RequestText, id: string, p: Profession) {
    InCategory(t, p, Wish(t, request)) || Exactly(t, Key(t, Wish(t, request)), id)
  }

  /** A trade of the group is wanted. */
  ghost predicate GroupWanted(t: Tables, request: RequestText, group: string) {
    exists id, p :: Wanted(t, request, id) && IsTrade(t, id, p) && p.groupId == Some(group)
  }

  /** The trade is wanted, or its group has one that is wanted or is in the request's category. */
  ghost predicate Adjacent(t: Tables, request: RequestText, id: string, p: Profession) {
    || Wanted(t, request, id)
    || exists group :: p.groupId == Some(group) && group != "" && group != "other"
                       && (GroupServes(t, group, Wish(t, request)) || GroupWanted(t, request, group))
  }

  /** The words of the token stand together in the request's text, and are three characters or more. */
  ghost predicate TextHas(t: Tables, request: RequestText, token: string) {
    var words := Runs(t.lower(token));
    && |Joined(words)| >= 3
    && Block(Runs(t.lower(request.title + " " + request.description + " " + request.category)), words)
  }

  ghost predicate TextNames(t: Tables, request: RequestText, p: Profession) {
    exists token :: IsToken(t, p, token) && TextHas(t, request, token)
  }

  lemma ViewIff(t: Tables, registry: Registry, request: RequestText, id: string)
    requires Indexes(registry, t.lower, t.professions, t.categories)
    ensures var r := ViewOf(t.lower, registry, request);
            && r.category == Wish(t, request)
            && (id in r.exact <==> Exactly(t, Key(t, Wish(t, request)), id))
            && (id in r.exact + r.loose <==> Wanted(t, request, id))
  {
    LabelIff(t, registry, Wish(t, request), id);
  }

  lemma TextHasIff(t: Tables, registry: Registry, request: RequestText, token: string)
    ensures Mentions(t.lower, ViewOf(t.lower, registry, request).words, token) <==> TextHas(t, request, token)
  {
    MentionsIff(t.lower, request.title + " " + request.description + " " + request.category, token);
  }

  lemma GroupWantedIff(t: Tables, registry: Registry, request: RequestText, trade: Trade, group: string)
    requires Indexes(registry, t.lower, t.professions, t.categories) && trade.groupId == Some(group)
    ensures var r := ViewOf(t.lower, registry, request);
            SharesGroup(registry, r.exact + r.loose, trade) <==> GroupWanted(t, request, group)
  {
    var r := ViewOf(t.lower, registry, request);
    forall id, p
      ensures id in r.exact + r.loose <==> Wanted(t, request, id)
      ensures IsTrade(t, id, p) <==> id in registry.byId && registry.byId[id] == p
    {
      ViewIff(t, registry, request, id);
      IsTradeIff(t, registry, id, p);
    }
    if SharesGroup(registry, r.exact + r.loose, trade) {
      var id :| id in r.exact + r.loose && id in registry.byId && registry.byId[id].groupId == trade.groupId;
      assert Wanted(t, request, id) && IsTrade(t, id, registry.byId[id]);
    }
  }

  /** How a row of the table fits the request, whichever way it was named. */
  lemma RowFits(t: Tables, registry: Registry, request: RequestText, id: string, p: Profession, loose: bool)
    requires Indexes(registry, t.lower, t.professions, t.categories) && IsTrade(t, id, p)
    ensures TradeOf(t.lower, registry, id).Some?
    ensures var r, trade := ViewOf(t.lower, registry, request), TradeOf(t.lower, registry, id).value.(loose := loose);
            && (SameTrade(r, trade) <==> !loose && SameWork(t, request, id, p))
            && (RelatedTrade(registry, r, trade) <==> Adjacent(t, request, id, p))
            && (MentionedTrade(t.lower, r, trade) <==> TextNames(t, request, p))
  {
    TradeOfRow(t, registry, id, p);
    ViewIff(t, registry, request, id);
    var r, trade := ViewOf(t.lower, registry, request), TradeOf(t.lower, registry, id).value.(loose := loose);
    if p.groupId.Some? && p.groupId.value != "" {
      GroupServesIff(t, registry, p.groupId.value, Wish(t, request));
      GroupWantedIff(t, registry, request, trade, p.groupId.value);
    }
    forall token {
      TextHasIff(t, registry, request, token);
    }
  }

  // ---------------------------------------------------------------- an offer, and a profession

  /** The offer's category names the trade: exactly, or only through a word of a category name. */
  ghost predicate Claims(t: Tables, text: string, id: string, loose: bool) {
    && Key(t, text) != "" && Key(t, text) != "other"
    && if loose then Loosely(t, Key(t, Key(t, text)), id) else Exactly(t, Key(t, Key(t, text)), id)
  }

  /** No trade is labelled with the offer's category, which then stands for itself. */
  ghost predicate Unplaced(t: Tables, text: string) {
    |Key(t, text)| >= 3 && Key(t, text) != "other" && Nobody(t, Key(t, Key(t, text)))
  }

  /** The text itself, or one of its longer words that is not a generic one. */
  predicate OwnWord(t: Tables, text: string, token: string) {
    && |token| >= 3
    && (token == Key(t, text) || (token in Runs(Key(t, text)) && |token| >= 4 && token !in GENERIC_WORDS))
  }

  ghost predicate OwnWordsAppear(t: Tables, request: RequestText, text: string) {
    exists token :: OwnWord(t, text, token) && TextHas(t, request, token)
  }

  ghost predicate OfferSame(t: Tables, request: RequestText, text: string) {
    && Filed(t, request)
    && (|| Key(t, text) == Wish(t, request)
        || (exists id, p :: Claims(t, text, id, false) && IsTrade(t, id, p) && SameWork(t, request, id, p))
        || (Unplaced(t, text) && Exactly(t, Key(t, Wish(t, request)), "label:" + Key(t, text))))
  }

  ghost predicate OfferRelated(t: Tables, request: RequestText, text: string) {
    && Filed(t, request)
    && (|| (exists id, p, loose :: Claims(t, text, id, loose) && IsTrade(t, id, p) && Adjacent(t, request, id, p))
        || (Unplaced(t, text) && Wanted(t, request, "label:" + Key(t, text))))
  }

  ghost predicate OfferMentioned(t: Tables, request: RequestText, text: string) {
    || (exists id, p, loose :: Claims(t, text, id, loose) && IsTrade(t, id, p) && TextNames(t, request, p))
    || (Unplaced(t, text) && OwnWordsAppear(t, request, Trim(text)))
  }

  /** The row of the id, as the label claims it. */
  ghost predicate IsClaimed(t: Tables, registry: Registry, text: string, id: string, loose: bool, trade: Trade) {
    && Claims(t, text, id, loose) && id in registry.byId
    && trade == TradeOf(t.lower, registry, id).value.(loose := loose)
  }

  lemma ClaimedIff(t: Tables, registry: Registry, text: string, loose: bool, trade: Trade)
    requires Indexes(registry, t.lower, t.professions, t.categories) && Key(t, text) != "" && Key(t, text) != "other"
    ensures var r := ResolvedLabel(t.lower, registry, Key(t, text));
            trade in TradesOf(t.lower, registry, if loose then r.loose else r.exact, loose) <==>
              exists id :: IsClaimed(t, registry, text, id, loose, trade)
  {
    var r := ResolvedLabel(t.lower, registry, Key(t, text));
    var ids := if loose then r.loose else r.exact;
    forall id
      ensures id in ids <==> Claims(t, text, id, loose)
      ensures id in ids ==> id in registry.byId
    {
      LabelIff(t, registry, Key(t, text), id);
      ClaimedHasRow(t, registry, Key(t, Key(t, text)), id);
    }
    if trade in TradesOf(t.lower, registry, ids, loose) {
      var id :| id in ids && TradeOf(t.lower, registry, id).Some?
                && trade == TradeOf(t.lower, registry, id).value.(loose := loose);
      assert IsClaimed(t, registry, text, id, loose, trade);
    }
  }

  lemma UnplacedIff(t: Tables, registry: Registry, text: string)
    requires Indexes(registry, t.lower, t.professions, t.categories)
    ensures ResolvedLabel(t.lower, registry, Key(t, text)).exact == {} <==> Nobody(t, Key(t, Key(t, text)))
  {
    var exact := ResolvedLabel(t.lower, registry, Key(t, text)).exact;
    forall id ensures id in exact <==> Exactly(t, Key(t, Key(t, text)), id) {
      LabelIff(t, registry, Key(t, text), id);
    }
  }

  /** The trades of an offer: the rows its category claims, or its own words. */
  lemma OfferTradesIff(t: Tables, registry: Registry, text: string, trade: Trade)
    requires Indexes(registry, t.lower, t.professions, t.categories)
    ensures trade in OfferTrades(t.lower, registry, text) <==>
              || (exists id, loose :: IsClaimed(t, registry, text, id, loose, trade))
              || (Unplaced(t, text) && trade == LabelTrade(t.lower, text))
  {
    if Key(t, text) != "" && Key(t, text) != "other" {
      ClaimedIff(t, registry, text, false, trade);
      ClaimedIff(t, registry, text, true, trade);
      UnplacedIff(t, registry, text);
    }
  }

  lemma ClaimedHasRow(t: Tables, registry: Registry, key: string, id: string)
    requires Indexes(registry, t.lower, t.professions, t.categories)
    ensures Exactly(t, key, id) || Loosely(t, key, id) ==> id in registry.byId && IsTrade(t, id, registry.byId[id])
  {
    if Exactly(t, key, id) {
      ExactlyHasRow(t, registry, key, id);
    } else if Loosely(t, key, id) {
      var c :| c in t.categories && Exactly(t, Key(t, c.name), id);
      ExactlyHasRow(t, registry, Key(t, c.name), id);
    }
  }

  /** A label that stands for itself. */
  lemma LabelFits(t: Tables, registry: Registry, request: RequestText, text: string)
    requires Indexes(registry, t.lower, t.professions, t.categories)
    ensures var r, trade := ViewOf(t.lower, registry, request), LabelTrade(t.lower, text);
            && (SameTrade(r, trade) <==> Exactly(t, Key(t, Wish(t, request)), "label:" + Key(t, text)))
            && (RelatedTrade(registry, r, trade) <==> Wanted(t, request, "label:" + Key(t, text)))
            && (MentionedTrade(t.lower, r, trade) <==> OwnWordsAppear(t, request, Trim(text)))
  {
    ViewIff(t, registry, request, "label:" + Key(t, text));
    forall token {
      TextHasIff(t, registry, request, token);
    }
  }

  lemma SameIff(t: Tables, registry: Registry, request: RequestText, text: string)
    requires Indexes(registry, t.lower, t.professions, t.categories)
    ensures var r := ViewOf(t.lower, registry, request);
            (exists trade :: trade in OfferTrades(t.lower, registry, text) && SameTrade(r, trade)) <==>
              || (exists id, p :: Claims(t, text, id, false) && IsTrade(t, id, p) && SameWork(t, request, id, p))
              || (Unplaced(t, text) && Exactly(t, Key(t, Wish(t, request)), "label:" + Key(t, text)))
  {
    var r := ViewOf(t.lower, registry, request);
    LabelFits(t, registry, request, text);
    OfferTradesIff(t, registry, text, LabelTrade(t.lower, text));
    if trade :| trade in OfferTrades(t.lower, registry, text) && SameTrade(r, trade) {
      OfferTradesIff(t, registry, text, trade);
      if id, loose :| IsClaimed(t, registry, text, id, loose, trade) {
        IsTradeIff(t, registry, id, registry.byId[id]);
        RowFits(t, registry, request, id, registry.byId[id], loose);
      }
    }
    if id, p :| Claims(t, text, id, false) && IsTrade(t, id, p) && SameWork(t, request, id, p) {
      IsTradeIff(t, registry, id, p);
      RowFits(t, registry, request, id, p, false);
      var trade := TradeOf(t.lower, registry, id).value.(loose := false);
      assert IsClaimed(t, registry, text, id, false, trade);
      OfferTradesIff(t, registry, text, trade);
    }
  }

  lemma RelatedIff(t: Tables, registry: Registry, request: RequestText, text: string)
    requires Indexes(registry, t.lower, t.professions, t.categories)
    ensures var r := ViewOf(t.lower, registry, request);
            (exists trade :: trade in OfferTrades(t.lower, registry, text) && RelatedTrade(registry, r, trade)) <==>
              || (exists id, p, loose :: Claims(t, text, id, loose) && IsTrade(t, id, p) && Adjacent(t, request, id, p))
              || (Unplaced(t, text) && Wanted(t, request, "label:" + Key(t, text)))
  {
    var r := ViewOf(t.lower, registry, request);
    LabelFits(t, registry, request, text);
    OfferTradesIff(t, registry, text, LabelTrade(t.lower, text));
    if trade :| trade in OfferTrades(t.lower, registry, text) && RelatedTrade(registry, r, trade) {
      OfferTradesIff(t, registry, text, trade);
      if id, loose :| IsClaimed(t, registry, text, id, loose, trade) {
        IsTradeIff(t, registry, id, registry.byId[id]);
        RowFits(t, registry, request, id, registry.byId[id], loose);
      }
    }
    if id, p, loose :| Claims(t, text, id, loose) && IsTrade(t, id, p) && Adjacent(t, request, id, p) {
      IsTradeIff(t, registry, id, p);
      RowFits(t, registry, request, id, p, loose);
      var trade := TradeOf(t.lower, registry, id).value.(loose := loose);
      assert IsClaimed(t, registry, text, id, loose, trade);
      OfferTradesIff(t, registry, text, trade);
    }
  }

  lemma MentionedIff(t: Tables, registry: Registry, request: RequestText, text: string)
    requires Indexes(registry, t.lower, t.professions, t.categories)
    ensures var r := ViewOf(t.lower, registry, request);
            (exists trade :: trade in OfferTrades(t.lower, registry, text) && MentionedTrade(t.lower, r, trade)) <==>
              || (exists id, p, loose :: Claims(t, text, id, loose) && IsTrade(t, id, p) && TextNames(t, request, p))
              || (Unplaced(t, text) && OwnWordsAppear(t, request, Trim(text)))
  {
    var r := ViewOf(t.lower, registry, request);
    LabelFits(t, registry, request, text);
    OfferTradesIff(t, registry, text, LabelTrade(t.lower, text));
    if trade :| trade in OfferTrades(t.lower, registry, text) && MentionedTrade(t.lower, r, trade) {
      OfferTradesIff(t, registry, text, trade);
      if id, loose :| IsClaimed(t, registry, text, id, loose, trade) {
        IsTradeIff(t, registry, id, registry.byId[id]);
        RowFits(t, registry, request, id, registry.byId[id], loose);
      }
    }
    if id, p, loose :| Claims(t, text, id, loose) && IsTrade(t, id, p) && TextNames(t, request, p) {
      IsTradeIff(t, registry, id, p);
      RowFits(t, registry, request, id, p, loose);
      var trade := TradeOf(t.lower, registry, id).value.(loose := loose);
      assert IsClaimed(t, registry, text, id, loose, trade);
      OfferTradesIff(t, registry, text, trade);
    }
  }

  lemma OfferSameIff(t: Tables, registry: Registry, request: RequestText, text: string)
    requires Indexes(registry, t.lower, t.professions, t.categories)
    ensures var r, trades := ViewOf(t.lower, registry, request), OfferTrades(t.lower, registry, text);
            SameRule(t.lower, r, trades, Some(text)) <==> OfferSame(t, request, text)
  {
    ViewIff(t, registry, request, "");
    SameIff(t, registry, request, text);
  }

  lemma OfferRelatedIff(t: Tables, registry: Registry, request: RequestText, text: string)
    requires Indexes(registry, t.lower, t.professions, t.categories)
    ensures var r, trades := ViewOf(t.lower, registry, request), OfferTrades(t.lower, registry, text);
            RelatedRule(registry, r, trades) <==> OfferRelated(t, request, text)
  {
    ViewIff(t, registry, request, "");
    RelatedIff(t, registry, request, text);
  }

  lemma OfferMentionedIff(t: Tables, registry: Registry, request: RequestText, text: string)
    requires Indexes(registry, t.lower, t.professions, t.categories)
    ensures var r, trades := ViewOf(t.lower, registry, request), OfferTrades(t.lower, registry, text);
            MentionRule(t.lower, r, trades) <==> OfferMentioned(t, request, text)
  {
    ViewIff(t, registry, request, "");
    MentionedIff(t, registry, request, text);
  }

  /** The tier of an offer with a category, from the tables alone. */
  lemma OfferTierIff(t: Tables, s: Search, request: RequestText, offer: Offer)
    requires s.lower == t.lower && Indexes(s.registry, t.lower, t.professions, t.categories)
    requires s.view == ViewOf(t.lower, s.registry, request) && offer.category.Some?
    ensures OfferTier(s, offer) ==
            if OfferSame(t, request, offer.category.value) then Some(Same)
            else if OfferRelated(t, request, offer.category.value) then Some(Related)
            else if OfferMentioned(t, request, offer.category.value) then Some(Mentioned)
            else None
  {
    OfferSameIff(t, s.registry, request, offer.category.value);
    OfferRelatedIff(t, s.registry, request, offer.category.value);
    OfferMentionedIff(t, s.registry, request, offer.category.value);
  }

  lemma TierOfOne(lower: Lower, registry: Registry, r: RequestView, trade: Trade)
    ensures StrongestTier(lower, registry, r, {trade}, None) ==
            if Meaningful(r.category) && SameTrade(r, trade) then Some(Same)
            else if Meaningful(r.category) && RelatedTrade(registry, r, trade) then Some(Related)
            else if MentionedTrade(lower, r, trade) then Some(Mentioned)
            else None
  {
    assert trade in {trade};
  }

  /** The tier of a profession that is a row of the table. */
  lemma ProfessionTierIff(t: Tables, s: Search, request: RequestText, id: string, p: Profession)
    requires s.lower == t.lower && Indexes(s.registry, t.lower, t.professions, t.categories)
    requires s.view == ViewOf(t.lower, s.registry, request) && IsTrade(t, id, p)
    ensures ProfessionTier(s, id) ==
            if Filed(t, request) && SameWork(t, request, id, p) then Some(Same)
            else if Filed(t, request) && Adjacent(t, request, id, p) then Some(Related)
            else if TextNames(t, request, p) then Some(Mentioned)
            else None
  {
    ViewIff(t, s.registry, request, id);
    TradeOfRow(t, s.registry, id, p);
    RowFits(t, s.registry, request, id, p, false);
    var trade := TradeOf(t.lower, s.registry, id).value;
    assert trade == trade.(loose := false);
    TierOfOne(s.lower, s.registry, s.view, trade);
  }

  /** The tier of one that is not: a free text of the provider's own. */
  lemma FreeTextTierIff(t: Tables, s: Search, request: RequestText, id: string)
    requires s.lower == t.lower && Indexes(s.registry, t.lower, t.professions, t.categories)
    requires s.view == ViewOf(t.lower, s.registry, request) && forall p :: !IsTrade(t, id, p)
    ensures ProfessionTier(s, id) ==
            if |Key(t, id)| >= 3 && Key(t, id) != "other" && OwnWordsAppear(t, request, id) then Some(Mentioned)
            else None
  {
    if id in s.registry.byId {
      IsTradeIff(t, s.registry, id, s.registry.byId[id]);
      assert false;
    }
    FreeTextFits(t, s.registry, request, id);
    var trade := TradeOf(t.lower, s.registry, id);
    if trade.Some? {
      TierOfOne(s.lower, s.registry, s.view, trade.value);
    }
  }

  lemma FreeTextFits(t: Tables, registry: Registry, request: RequestText, id: string)
    requires Indexes(registry, t.lower, t.professions, t.categories) && id !in registry.byId
    ensures forall p :: !IsTrade(t, id, p)
    ensures var r, trade := ViewOf(t.lower, registry, request), TradeOf(t.lower, registry, id);
            && (trade.Some? <==> |Key(t, id)| >= 3 && Key(t, id) != "other")
            && (trade.Some? ==>
                  && trade.value.id == id && trade.value.name == Trim(id)
                  && !SameTrade(r, trade.value) && !RelatedTrade(registry, r, trade.value)
                  && (MentionedTrade(t.lower, r, trade.value) <==> OwnWordsAppear(t, request, id)))
  {
    forall p {
      IsTradeIff(t, registry, id, p);
    }
    ViewIff(t, registry, request, id);
    ClaimedHasRow(t, registry, Key(t, Wish(t, request)), id);
    forall token {
      TextHasIff(t, registry, request, token);
    }
  }
}
