/**
 How strongly a provider's trades fit a request: the same work, an adjacent trade,
 or a mention in the text.
 */
module TradeMatching {
  import opened Wrappers
  import opened PhraseWords
  import opened TradeRegistry

  datatype Tier = Same | Related | Mentioned

  function Rank(t: Tier): nat {
    match t case Same => 0 case Related => 1 case Mentioned => 2
  }

  datatype Trade = Trade(
    id: string,
    name: string,
    groupId: Option<string>,
    categoryNames: set<string>,
    tokens: set<string>,
    loose: bool)

  datatype RequestText = RequestText(title: string, description: string, category: string)

  datatype RequestView = RequestView(category: string, exact: set<string>, loose: set<string>, words: string)

  const GENERIC_WORDS := {
    "services", "service", "general", "work", "works", "worker", "workers", "person", "people", "help", "helper",
    "expert", "professional", "specialist", "repair", "repairs", "fundi", "need", "needed", "looking", "wanted"}

  // ---------------------------------------------------------------- trades

  /** The phrase itself and its distinctive words. */
  function FreeTextTokens(lower: Lower, text: string): set<string> {
    var phrase := Norm(lower, text);
    var words := set w | w in Runs(phrase) && |w| >= 4 && w !in GENERIC_WORDS;
    set t | t in words + {phrase} && |t| >= MIN_TOKEN
  }

  /** A trade of the registry, or a legacy free-text profession. */
  function TradeOf(lower: Lower, registry: Registry, professionId: string): Option<Trade> {
    if professionId !in registry.byId then
      var token := Norm(lower, professionId);
      if |token| < MIN_TOKEN || token == MATCHES_NOTHING then None
      else Some(Trade(professionId, Trim(professionId), None, {}, FreeTextTokens(lower, professionId), false))
    else
      var row := registry.byId[professionId];
      var categoryName := CategoryNameOf(registry.categoryNameById, row);
      var named := set i | 0 <= i < |[row.name] + row.aliases| :: Norm(lower, ([row.name] + row.aliases)[i]);
      Some(Trade(row.id, row.name, row.groupId,
                 if categoryName.Some? then {Norm(lower, categoryName.value)} else {},
                 set t | t in named && |t| >= MIN_TOKEN,
                 false))
  }

  function TradesOf(lower: Lower, registry: Registry, ids: set<string>, loose: bool): set<Trade> {
    set id | id in ids && TradeOf(lower, registry, id).Some? :: TradeOf(lower, registry, id).value.(loose := loose)
  }

  /** The trade a label stands for when the registry knows none: its own words. */
  function LabelTrade(lower: Lower, category: string): Trade {
    Trade("label:" + Norm(lower, category), Trim(category), None, {}, FreeTextTokens(lower, Trim(category)), false)
  }

  /** The trades an offer's category claims. */
  function OfferTrades(lower: Lower, registry: Registry, category: string): set<Trade> {
    var key := Norm(lower, category);
    if !Meaningful(key) then {}
    else
      var resolved := ResolvedLabel(lower, registry, key);
      TradesOf(lower, registry, resolved.exact, false)
      + TradesOf(lower, registry, resolved.loose, true)
      + (if |key| >= MIN_TOKEN && resolved.exact == {} then {LabelTrade(lower, category)} else {})
  }

  ghost function Elements<T>(s: seq<T>): set<T> {
    set x | x in s
  }

  /** The same, as the list the matcher builds. */
  method ListTrades(lower: Lower, registry: Registry, ids: set<string>, loose: bool) returns (trades: seq<Trade>)
    ensures Elements(trades) == TradesOf(lower, registry, ids, loose)
  {
    trades := [];
    var todo := ids;
    while todo != {}
      invariant todo <= ids
      invariant Elements(trades) == TradesOf(lower, registry, ids - todo, loose)
    {
      var id :| id in todo;
      ghost var before := trades;
      var t := TradeOf(lower, registry, id);
      if t.Some? {
        trades := trades + [t.value.(loose := loose)];
      }
      assert ids - (todo - {id}) == (ids - todo) + {id};
      assert Elements(trades) == Elements(before) + TradesOf(lower, registry, {id}, loose);
      todo := todo - {id};
    }
    assert ids - todo == ids;
  }

  method ListOfferTrades(lower: Lower, registry: Registry, category: string) returns (trades: seq<Trade>)
    ensures Elements(trades) == OfferTrades(lower, registry, category)
  {
    var key := Norm(lower, category);
    if key == "" || key == MATCHES_NOTHING {
      return [];
    }
    var resolved := ResolveLabel(lower, registry, key);
    var exact := ListTrades(lower, registry, resolved.exact, false);
    var loose := ListTrades(lower, registry, resolved.loose, true);
    var own := if |key| >= MIN_TOKEN && resolved.exact == {} then [LabelTrade(lower, category)] else [];
    trades := exact + loose + own;
    assert Elements(trades) == Elements(exact) + Elements(loose) + Elements(own);
  }

  function ViewOf(lower: Lower, registry: Registry, request: RequestText): RequestView {
    var category := Norm(lower, request.category);
    var resolved := ResolvedLabel(lower, registry, category);
    RequestView(category, resolved.exact, resolved.loose,
                WordsOf(lower, request.title + " " + request.description + " " + request.category))
  }

  // ---------------------------------------------------------------- the rules

  predicate SameTrade(r: RequestView, t: Trade) {
    !t.loose && (r.category in t.categoryNames || t.id in r.exact)
  }

  predicate SameLabel(lower: Lower, r: RequestView, offerCategory: Option<string>) {
    offerCategory.Some? && Norm(lower, offerCategory.value) == r.category
  }

  predicate SameRule(lower: Lower, r: RequestView, trades: set<Trade>, offerCategory: Option<string>) {
    Meaningful(r.category) && (SameLabel(lower, r, offerCategory) || exists t :: t in trades && SameTrade(r, t))
  }

  predicate SharesGroup(registry: Registry, ids: set<string>, t: Trade) {
    exists id :: id in ids && id in registry.byId && registry.byId[id].groupId == t.groupId
  }

  predicate RelatedTrade(registry: Registry, r: RequestView, t: Trade) {
    || t.id in r.exact + r.loose
    || (&& Truthy(t.groupId) && t.groupId.value != MATCHES_NOTHING
        && (r.category in At(registry.groupCategoryNames, t.groupId.value)
             || SharesGroup(registry, r.exact + r.loose, t)))
  }

  predicate RelatedRule(registry: Registry, r: RequestView, trades: set<Trade>) {
    Meaningful(r.category) && exists t :: t in trades && RelatedTrade(registry, r, t)
  }

  predicate MentionedTrade(lower: Lower, r: RequestView, t: Trade) {
    exists token :: token in t.tokens && Mentions(lower, r.words, token)
  }

  predicate MentionRule(lower: Lower, r: RequestView, trades: set<Trade>) {
    exists t :: t in trades && MentionedTrade(lower, r, t)
  }

  /** The strongest tier whose rule holds. */
  function StrongestTier(lower: Lower, registry: Registry, r: RequestView, trades: set<Trade>,
                         offerCategory: Option<string>): Option<Tier> {
    if SameRule(lower, r, trades, offerCategory) then Some(Same)
    else if RelatedRule(registry, r, trades) then Some(Related)
    else if MentionRule(lower, r, trades) then Some(Mentioned)
    else None
  }

  /** More trades never weaken the tier. */
  lemma MoreTradesNeverWeaker(lower: Lower, registry: Registry, r: RequestView, fewer: set<Trade>, more: set<Trade>,
                              offerCategory: Option<string>)
    requires fewer <= more
    ensures var a := StrongestTier(lower, registry, r, fewer, offerCategory);
            var b := StrongestTier(lower, registry, r, more, offerCategory);
            a.Some? ==> b.Some? && Rank(b.value) <= Rank(a.value)
  {
  }

  // ---------------------------------------------------------------- the early-return loops

  method AnyRelatedGroup(registry: Registry, ids: set<string>, t: Trade) returns (found: bool)
    ensures found == SharesGroup(registry, ids, t)
  {
    var todo := ids;
    while todo != {}
      invariant todo <= ids
      invariant forall id :: id in ids - todo && id in registry.byId ==> registry.byId[id].groupId != t.groupId
    {
      var id :| id in todo;
      if id in registry.byId && registry.byId[id].groupId == t.groupId {
        return true;
      }
      todo := todo - {id};
    }
    found := false;
  }

  method AnyMention(lower: Lower, words: string, tokens: set<string>) returns (found: bool)
    ensures found <==> exists token :: token in tokens && Mentions(lower, words, token)
  {
    var todo := tokens;
    while todo != {}
      invariant todo <= tokens
      invariant forall token :: token in tokens - todo ==> !Mentions(lower, words, token)
    {
      var token :| token in todo;
      if Mentions(lower, words, token) {
        return true;
      }
      todo := todo - {token};
    }
    found := false;
  }

  /** The nested loops with their early returns compute the strongest tier whose rule holds. */
  method TierOf(lower: Lower, registry: Registry, r: RequestView, trades: seq<Trade>, offerCategory: Option<string>)
    returns (tier: Option<Tier>)
    ensures tier == StrongestTier(lower, registry, r, Elements(trades), offerCategory)
  {
    if r.category != "" && r.category != MATCHES_NOTHING {
      if offerCategory.Some? && Norm(lower, offerCategory.value) == r.category {
        return Some(Same);
      }
      for i := 0 to |trades|
        invariant forall j :: 0 <= j < i ==> !SameTrade(r, trades[j])
      {
        var t := trades[i];
        if !t.loose {
          if r.category in t.categoryNames || t.id in r.exact {
            assert t in Elements(trades) && SameTrade(r, t);
            return Some(Same);
          }
        }
      }
      var requestTrades := r.exact + r.loose;
      for i := 0 to |trades|
        invariant forall j :: 0 <= j < i ==> !RelatedTrade(registry, r, trades[j])
      {
        var t := trades[i];
        assert t in Elements(trades);
        if t.id in r.exact || t.id in r.loose {
          return Some(Related);
        }
        if Truthy(t.groupId) && t.groupId.value != MATCHES_NOTHING {
          if r.category in At(registry.groupCategoryNames, t.groupId.value) {
            return Some(Related);
          }
          var related := AnyRelatedGroup(registry, requestTrades, t);
          if related {
            return Some(Related);
          }
        }
      }
    }
    for i := 0 to |trades|
      invariant forall j :: 0 <= j < i ==> !MentionedTrade(lower, r, trades[j])
    {
      var mentioned := AnyMention(lower, r.words, trades[i].tokens);
      if mentioned {
        assert trades[i] in Elements(trades) && MentionedTrade(lower, r, trades[i]);
        return Some(Mentioned);
      }
    }
    tier := None;
  }

  // ---------------------------------------------------------------- the registry and the rules together

  /** A registry trade that maps to the request's category is one of the trades the request names
      exactly. */
  lemma CategoryTradeIsExact(lower: Lower, registry: Registry, professions: seq<Profession>, categories: seq<Category>,
                             request: RequestText, id: string)
    requires Indexes(registry, lower, professions, categories)
    requires Norm(lower, Norm(lower, request.category)) == Norm(lower, request.category)
    requires id in registry.byId
    requires var category := Norm(lower, request.category);
             Meaningful(category) && category in TradeOf(lower, registry, id).value.categoryNames
    ensures id in ViewOf(lower, registry, request).exact
  {
    var category := Norm(lower, request.category);
    var names := registry.categoryNameById;
    var row := registry.byId[id];
    RowsComeFromTable(professions, id);
    var labels := RawLabels(names, row);
    assert labels[|labels| - 1] == CategoryNameOf(names, row).value;
    assert IsLabelOf(lower, names, row, category);
    assert At(registry.tradesByLabel, category) == TradesNamed(lower, names, professions, category);
  }

  lemma {:induction false} RowsComeFromTable(professions: seq<Profession>, id: string)
    requires id in ById(professions)
    ensures ById(professions)[id] in professions && Kept(ById(professions)[id]) && ById(professions)[id].id == id
  {
    var n := |professions| - 1;
    if !(Kept(professions[n]) && professions[n].id == id) {
      RowsComeFromTable(professions[..n], id);
    }
  }

  /** The trades the matcher ever looks at: registry trades, free-text professions, and labels. */
  predicate Derived(lower: Lower, registry: Registry, t: Trade) {
    t.categoryNames == {} || (t.id in registry.byId && TradeOf(lower, registry, t.id).value.(loose := t.loose) == t)
  }

  lemma TradesAreDerived(lower: Lower, registry: Registry, professions: seq<Profession>, category: string,
                         professionId: string)
    requires registry.byId == ById(professions)
    ensures forall t :: t in OfferTrades(lower, registry, category) ==> Derived(lower, registry, t)
    ensures TradeOf(lower, registry, professionId).Some? ==>
              Derived(lower, registry, TradeOf(lower, registry, professionId).value)
  {
    forall id | id in registry.byId ensures registry.byId[id].id == id {
      RowsComeFromTable(professions, id);
    }
  }

  /** So when no trade carries the request's category, "same" means that the offer is filed under
      literally that category. */
  lemma SameNeedsTheLabel(lower: Lower, registry: Registry, professions: seq<Profession>, categories: seq<Category>,
                          request: RequestText, trades: set<Trade>, offerCategory: Option<string>)
    requires Indexes(registry, lower, professions, categories)
    requires Norm(lower, Norm(lower, request.category)) == Norm(lower, request.category)
    requires forall t :: t in trades ==> Derived(lower, registry, t)
    requires ViewOf(lower, registry, request).exact == {}
    ensures var r := ViewOf(lower, registry, request);
            SameRule(lower, r, trades, offerCategory) <==> Meaningful(r.category) && SameLabel(lower, r, offerCategory)
  {
    var r := ViewOf(lower, registry, request);
    forall t | t in trades && Meaningful(r.category) ensures !SameTrade(r, t) {
      assert Derived(lower, registry, t);
      if r.category in t.categoryNames {
        CategoryTradeIsExact(lower, registry, professions, categories, request, t.id);
      }
    }
  }
}
