/**
 Everyone whose trade or open offers fit a request, strongest evidence first.
 */
module CandidateRanking {
  import opened Wrappers
  import opened PhraseWords
  import opened TradeRegistry
  import opened TradeMatching
  import opened StableSort

  /** `distance` is the distance to the request, when both sides have coordinates. */
  datatype Offer = Offer(id: string, category: Option<string>, distance: Option<real>)

  datatype Seed = Seed(userId: string, professionIds: seq<string>, offers: seq<Offer>)

  datatype OfferMatch = OfferMatch(offer: Offer, tier: Tier, distance: Option<real>)

  datatype Profile = Profile(trade: string, tier: Tier)

  datatype Candidate = Candidate(
    userId: string,
    tier: Tier,
    distance: Option<real>,
    offers: seq<OfferMatch>,
    profile: Option<Profile>)

  /** What one call works on: the request as viewed, its author, the registry, and how text is
      lowercased and user ids are ordered. */
  datatype Search = Search(
    lower: Lower,
    registry: Registry,
    view: RequestView,
    author: Option<string>,
    idBefore: (string, string) -> bool)

  // ---------------------------------------------------------------- the comparators

  /** Tier, then a known distance before an unknown one, the nearer first. */
  predicate Nearer(t1: Tier, d1: Option<real>, t2: Tier, d2: Option<real>) {
    if t1 != t2 then Rank(t1) < Rank(t2)
    else if d1.Some? && d2.Some? then d1.value < d2.value
    else d1.Some? && d2.None?
  }

  predicate OfferBefore(a: OfferMatch, b: OfferMatch) {
    Nearer(a.tier, a.distance, b.tier, b.distance)
  }

  predicate CandidateBefore(idBefore: (string, string) -> bool, a: Candidate, b: Candidate) {
    || Nearer(a.tier, a.distance, b.tier, b.distance)
    || (&& !Nearer(b.tier, b.distance, a.tier, a.distance)
        && (|a.offers| > |b.offers| || (|a.offers| == |b.offers| && idBefore(a.userId, b.userId))))
  }

  function RankBefore(idBefore: (string, string) -> bool): Before<Candidate> {
    (a, b) => CandidateBefore(idBefore, a, b)
  }

  ghost predicate StrictTotal(idBefore: (string, string) -> bool) {
    StrictWeak(idBefore) && forall u, v :: u != v ==> idBefore(u, v) || idBefore(v, u)
  }

  lemma OffersOrdered()
    ensures StrictWeak(OfferBefore)
  {
  }

  lemma CandidatesOrdered(idBefore: (string, string) -> bool)
    requires StrictTotal(idBefore)
    ensures StrictWeak(RankBefore(idBefore))
    ensures forall a: Candidate, b: Candidate :: a.userId != b.userId ==>
              RankBefore(idBefore)(a, b) || RankBefore(idBefore)(b, a)
  {
  }

  // ---------------------------------------------------------------- one provider

  function OfferTier(s: Search, offer: Offer): Option<Tier> {
    var category := if offer.category.Some? then offer.category.value else "";
    StrongestTier(s.lower, s.registry, s.view, OfferTrades(s.lower, s.registry, category), offer.category)
  }

  function ProfessionTier(s: Search, id: string): Option<Tier> {
    var trade := TradeOf(s.lower, s.registry, id);
    if trade.None? then None else StrongestTier(s.lower, s.registry, s.view, {trade.value}, None)
  }

  function MatchedOffers(s: Search, offers: seq<Offer>): seq<OfferMatch> {
    if offers == [] then []
    else
      var o := offers[|offers| - 1];
      var tier := OfferTier(s, o);
      MatchedOffers(s, offers[..|offers| - 1]) + (if tier.Some? then [OfferMatch(o, tier.value, o.distance)] else [])
  }

  /** The first of the profile's trades with the strongest tier. */
  function ProfileOf(s: Search, ids: seq<string>): Option<Profile> {
    if ids == [] then None
    else
      var id := ids[|ids| - 1];
      var before := ProfileOf(s, ids[..|ids| - 1]);
      var tier := ProfessionTier(s, id);
      if tier.Some? && (before.None? || Rank(tier.value) < Rank(before.value.tier)) then
        Some(Profile(TradeOf(s.lower, s.registry, id).value.name, tier.value))
      else before
  }

  function Stronger(a: Tier, b: Tier): Tier {
    if Rank(b) < Rank(a) then b else a
  }

  function BestOffer(offers: seq<OfferMatch>, start: Tier): Tier {
    if offers == [] then start else Stronger(BestOffer(offers[..|offers| - 1], start), offers[|offers| - 1].tier)
  }

  /** The left-to-right reduction over the offers' tiers and then the profile's. */
  function BestTier(offers: seq<OfferMatch>, profile: Option<Profile>): Tier
    requires offers != [] || profile.Some?
  {
    if offers == [] then profile.value.tier
    else
      var best := BestOffer(offers, offers[0].tier);
      if profile.Some? then Stronger(best, profile.value.tier) else best
  }

  function NearestKnown(offers: seq<OfferMatch>): Option<real> {
    if offers == [] then None
    else
      var before, d := NearestKnown(offers[..|offers| - 1]), offers[|offers| - 1].distance;
      if d.Some? && (before.None? || d.value < before.value) then d else before
  }

  function CandidateOf(s: Search, seed: Seed): Option<Candidate> {
    if s.author == Some(seed.userId) then None
    else
      var offers := Sort(OfferBefore, MatchedOffers(s, seed.offers));
      var profile := ProfileOf(s, seed.professionIds);
      if offers == [] && profile.None? then None
      else Some(Candidate(seed.userId, BestTier(offers, profile), NearestKnown(offers), offers, profile))
  }

  function Found(s: Search, seeds: seq<Seed>): seq<Candidate> {
    if seeds == [] then []
    else
      var c := CandidateOf(s, seeds[|seeds| - 1]);
      Found(s, seeds[..|seeds| - 1]) + (if c.Some? then [c.value] else [])
  }

  function Ranked(s: Search, seeds: seq<Seed>): seq<Candidate> {
    Sort(RankBefore(s.idBefore), Found(s, seeds))
  }

  // ---------------------------------------------------------------- what a candidate is

  /** Some offer or profession of the provider matches with this tier. */
  ghost predicate Evidence(s: Search, seed: Seed, tier: Tier) {
    || (exists o :: o in seed.offers && OfferTier(s, o) == Some(tier))
    || (exists id :: id in seed.professionIds && ProfessionTier(s, id) == Some(tier))
  }

  lemma {:induction false} MatchedIff(s: Search, offers: seq<Offer>, m: OfferMatch)
    ensures m in MatchedOffers(s, offers) <==>
              m.offer in offers && OfferTier(s, m.offer) == Some(m.tier) && m.distance == m.offer.distance
  {
    if offers != [] {
      var n := |offers| - 1;
      MatchedIff(s, offers[..n], m);
      assert offers == offers[..n] + [offers[n]];
    }
  }

  /** An offer without a category, or with a blank one, matches nothing. */
  lemma BlankOfferMatchesNothing(s: Search, offer: Offer)
    requires s.lower("") == "" && (offer.category.Some? ==> Trim(offer.category.value) == "")
    ensures OfferTier(s, offer).None?
  {
  }

  lemma {:induction false} ProfileIsBest(s: Search, ids: seq<string>)
    ensures var p := ProfileOf(s, ids);
            && (p.Some? ==> exists id :: id in ids && ProfessionTier(s, id) == Some(p.value.tier)
                                         && TradeOf(s.lower, s.registry, id).value.name == p.value.trade)
            && (forall id :: id in ids && ProfessionTier(s, id).Some? ==>
                  p.Some? && Rank(p.value.tier) <= Rank(ProfessionTier(s, id).value))
  {
    if ids != [] {
      var n := |ids| - 1;
      ProfileIsBest(s, ids[..n]);
      assert ids == ids[..n] + [ids[n]];
    }
  }

  /** Among equally strong professions it is the first that names the profile. */
  lemma {:induction false} ProfileIsFirst(s: Search, ids: seq<string>, k: nat)
    requires k < |ids| && ProfessionTier(s, ids[k]).Some?
    requires forall j :: 0 <= j < |ids| && j != k && ProfessionTier(s, ids[j]).Some? ==>
               var (other, tier) := (ProfessionTier(s, ids[j]).value, ProfessionTier(s, ids[k]).value);
               if j < k then Rank(tier) < Rank(other) else Rank(tier) <= Rank(other)
    ensures ProfileOf(s, ids) ==
            Some(Profile(TradeOf(s.lower, s.registry, ids[k]).value.name, ProfessionTier(s, ids[k]).value))
  {
    var n := |ids| - 1;
    var before := ProfileOf(s, ids[..n]);
    if k < n {
      ProfileIsFirst(s, ids[..n], k);
    } else if before.Some? {
      ProfileIsBest(s, ids[..n]);
      var j :| 0 <= j < n && ProfessionTier(s, ids[..n][j]) == Some(before.value.tier);
      assert Rank(ProfessionTier(s, ids[k]).value) < Rank(ProfessionTier(s, ids[j]).value);
    }
  }

  lemma {:induction false} BestOfferIsBest(offers: seq<OfferMatch>, start: Tier)
    ensures var best := BestOffer(offers, start);
            && Rank(best) <= Rank(start) && (forall m :: m in offers ==> Rank(best) <= Rank(m.tier))
            && (best == start || exists m :: m in offers && m.tier == best)
  {
    if offers != [] {
      var n := |offers| - 1;
      BestOfferIsBest(offers[..n], start);
      assert offers == offers[..n] + [offers[n]];
    }
  }

  lemma {:induction false} NearestIsNearest(offers: seq<OfferMatch>)
    ensures var d := NearestKnown(offers);
            && (d.Some? ==> exists m :: m in offers && m.distance == d)
            && (forall m :: m in offers && m.distance.Some? ==> d.Some? && d.value <= m.distance.value)
  {
    if offers != [] {
      var n := |offers| - 1;
      NearestIsNearest(offers[..n]);
      assert offers == offers[..n] + [offers[n]];
    }
  }

  /** The candidate's offers are the matching ones, reordered by the comparator. */
  lemma SortedOffers(s: Search, seed: Seed)
    ensures var sorted := Sort(OfferBefore, MatchedOffers(s, seed.offers));
            && SortedBy(OfferBefore, sorted)
            && multiset(sorted) == multiset(MatchedOffers(s, seed.offers))
            && forall m :: m in sorted <==> m in MatchedOffers(s, seed.offers)
  {
    OffersOrdered();
    var matched := MatchedOffers(s, seed.offers);
    SortSorts(OfferBefore, matched);
    assert forall m :: m in Sort(OfferBefore, matched) <==> m in multiset(Sort(OfferBefore, matched));
  }

  lemma BestTierIsBest(offers: seq<OfferMatch>, profile: Option<Profile>)
    requires offers != [] || profile.Some?
    ensures var best := BestTier(offers, profile);
            && (forall m :: m in offers ==> Rank(best) <= Rank(m.tier))
            && (profile.Some? ==> Rank(best) <= Rank(profile.value.tier))
            && ((exists m :: m in offers && m.tier == best) || (profile.Some? && profile.value.tier == best))
  {
    if offers != [] {
      BestOfferIsBest(offers, offers[0].tier);
      assert offers[0] in offers;
    }
  }

  lemma BestIsEvidence(s: Search, seed: Seed)
    requires CandidateOf(s, seed).Some?
    ensures Evidence(s, seed, CandidateOf(s, seed).value.tier)
  {
    var offers := Sort(OfferBefore, MatchedOffers(s, seed.offers));
    var profile := ProfileOf(s, seed.professionIds);
    var best := BestTier(offers, profile);
    SortedOffers(s, seed);
    ProfileIsBest(s, seed.professionIds);
    BestTierIsBest(offers, profile);
    if m :| m in offers && m.tier == best {
      MatchedIff(s, seed.offers, m);
    }
  }

  lemma EvidenceIsNoBetter(s: Search, seed: Seed, tier: Tier)
    requires s.author != Some(seed.userId) && Evidence(s, seed, tier)
    ensures CandidateOf(s, seed).Some? && Rank(CandidateOf(s, seed).value.tier) <= Rank(tier)
  {
    var offers := Sort(OfferBefore, MatchedOffers(s, seed.offers));
    var profile := ProfileOf(s, seed.professionIds);
    if o :| o in seed.offers && OfferTier(s, o) == Some(tier) {
      var m := OfferMatch(o, tier, o.distance);
      MatchedIff(s, seed.offers, m);
      SortedOffers(s, seed);
      assert m in offers;
    }
    ProfileIsBest(s, seed.professionIds);
    BestTierIsBest(offers, profile);
  }

  /** A provider is a candidate exactly when they are not the author and something matches; the
      candidate's tier is the strongest of all the evidence. */
  lemma TierIsStrongest(s: Search, seed: Seed)
    ensures CandidateOf(s, seed).Some? <==> s.author != Some(seed.userId) && exists tier :: Evidence(s, seed, tier)
    ensures CandidateOf(s, seed).Some? ==>
              var best := CandidateOf(s, seed).value.tier;
              && Evidence(s, seed, best) && (forall tier :: Evidence(s, seed, tier) ==> Rank(best) <= Rank(tier))
              && (best == Same <==> Evidence(s, seed, Same))
              && (best == Mentioned <==> !Evidence(s, seed, Same) && !Evidence(s, seed, Related))
  {
    if CandidateOf(s, seed).Some? {
      BestIsEvidence(s, seed);
    }
    if s.author != Some(seed.userId) {
      forall tier | Evidence(s, seed, tier)
        ensures CandidateOf(s, seed).Some? && Rank(CandidateOf(s, seed).value.tier) <= Rank(tier)
      {
        EvidenceIsNoBetter(s, seed, tier);
      }
    }
  }

  /** The candidate's distance is the smallest known one of its matching offers. */
  lemma DistanceIsNearest(s: Search, seed: Seed, o: Offer)
    requires CandidateOf(s, seed).Some?
    ensures var d := CandidateOf(s, seed).value.distance;
            && (d.Some? ==> exists x :: x in seed.offers && OfferTier(s, x).Some? && x.distance == d)
            && (o in seed.offers && OfferTier(s, o).Some? && o.distance.Some? ==>
                 d.Some? && d.value <= o.distance.value)
  {
    var offers := Sort(OfferBefore, MatchedOffers(s, seed.offers));
    SortedOffers(s, seed);
    NearestIsNearest(offers);
    if NearestKnown(offers).Some? {
      var m :| m in offers && m.distance == NearestKnown(offers);
      MatchedIff(s, seed.offers, m);
    }
    if o in seed.offers && OfferTier(s, o).Some? {
      MatchedIff(s, seed.offers, OfferMatch(o, OfferTier(s, o).value, o.distance));
    }
  }

  /** Adding offers or professions never removes a candidate and never weakens its tier. */
  lemma MoreEvidenceNeverWeaker(s: Search, fewer: Seed, more: Seed)
    requires fewer.userId == more.userId
    requires forall o :: o in fewer.offers ==> o in more.offers
    requires forall id :: id in fewer.professionIds ==> id in more.professionIds
    requires CandidateOf(s, fewer).Some?
    ensures CandidateOf(s, more).Some?
              && Rank(CandidateOf(s, more).value.tier) <= Rank(CandidateOf(s, fewer).value.tier)
  {
    TierIsStrongest(s, fewer);
    TierIsStrongest(s, more);
    assert Evidence(s, more, CandidateOf(s, fewer).value.tier);
  }

  // ---------------------------------------------------------------- the ranking

  ghost predicate DistinctUsers(seeds: seq<Seed>) {
    forall i, j :: 0 <= i < j < |seeds| ==> seeds[i].userId != seeds[j].userId
  }

  lemma {:induction false} FoundIff(s: Search, seeds: seq<Seed>, c: Candidate)
    ensures c in Found(s, seeds) <==> exists seed :: seed in seeds && CandidateOf(s, seed) == Some(c)
  {
    if seeds != [] {
      var n := |seeds| - 1;
      FoundIff(s, seeds[..n], c);
      assert seeds == seeds[..n] + [seeds[n]];
    }
  }

  /** The list holds exactly the candidates of the seeds, in the comparator's order. */
  lemma RankedIsSorted(s: Search, seeds: seq<Seed>, c: Candidate)
    requires StrictTotal(s.idBefore)
    ensures SortedBy(RankBefore(s.idBefore), Ranked(s, seeds))
    ensures c in Ranked(s, seeds) <==> exists seed :: seed in seeds && CandidateOf(s, seed) == Some(c)
  {
    CandidatesOrdered(s.idBefore);
    SortSorts(RankBefore(s.idBefore), Found(s, seeds));
    assert c in Ranked(s, seeds) <==> c in multiset(Ranked(s, seeds));
    FoundIff(s, seeds, c);
  }

  /** Evidence as the client reads it: the same trade before a related one before a mention, and at
      the same tier a known distance before an unknown one and the nearer before the farther. */
  predicate InOrder(t1: Tier, d1: Option<real>, t2: Tier, d2: Option<real>) {
    && (t2 == Same ==> t1 == Same) && (t1 == Mentioned ==> t2 == Mentioned)
    && (t1 == t2 && d2.Some? ==> d1.Some? && d1.value <= d2.value)
  }

  /** Any two candidates stand in that order; at the same tier and distance the one with more matching
      offers stands first, and then the one whose id comes first. */
  lemma RankedInOrder(s: Search, seeds: seq<Seed>, i: nat, j: nat)
    requires StrictTotal(s.idBefore) && i < j < |Ranked(s, seeds)|
    ensures var a, b := Ranked(s, seeds)[i], Ranked(s, seeds)[j];
            && InOrder(a.tier, a.distance, b.tier, b.distance)
            && (a.tier == b.tier && a.distance == b.distance ==>
                  || |a.offers| > |b.offers|
                  || (|a.offers| == |b.offers| && (a.userId == b.userId || s.idBefore(a.userId, b.userId))))
  {
    var a, b := Ranked(s, seeds)[i], Ranked(s, seeds)[j];
    RankedIsSorted(s, seeds, a);
    assert !RankBefore(s.idBefore)(b, a);
  }

  /** The offers of one candidate are its matching ones, each as often as the provider has it, in that
      order too; where it leaves two of them open they keep the order the provider has them in. */
  lemma OffersInOrder(s: Search, seed: Seed, i: nat, j: nat, y: OfferMatch)
    requires CandidateOf(s, seed).Some?
    ensures var offers := CandidateOf(s, seed).value.offers;
            && multiset(offers) == multiset(MatchedOffers(s, seed.offers))
            && (i < j < |offers| ==> InOrder(offers[i].tier, offers[i].distance, offers[j].tier, offers[j].distance))
            && AsGood(y, offers) == AsGood(y, MatchedOffers(s, seed.offers))
  {
    var matched := MatchedOffers(s, seed.offers);
    var offers := Sort(OfferBefore, matched);
    SortedOffers(s, seed);
    OffersOrdered();
    SortIsStable(OfferBefore, matched, y);
    AsGoodIsTies(y, matched);
    AsGoodIsTies(y, offers);
    if i < j < |offers| {
      assert !OfferBefore(offers[j], offers[i]);
    }
  }

  /** The matches with the tier and the distance of `y`. */
  function AsGood(y: OfferMatch, offers: seq<OfferMatch>): seq<OfferMatch> {
    if offers == [] then []
    else
      var tie := offers[0].tier == y.tier && offers[0].distance == y.distance;
      (if tie then [offers[0]] else []) + AsGood(y, offers[1..])
  }

  lemma {:induction false} AsGoodIsTies(y: OfferMatch, offers: seq<OfferMatch>)
    ensures AsGood(y, offers) == Ties(OfferBefore, y, offers)
  {
    if offers != [] {
      AsGoodIsTies(y, offers[1..]);
    }
  }

  lemma {:induction false} FoundConcat(s: Search, a: seq<Seed>, b: seq<Seed>)
    ensures Found(s, a + b) == Found(s, a) + Found(s, b)
  {
    if b == [] {
      assert a + b == a;
    } else {
      var n := |b| - 1;
      FoundConcat(s, a, b[..n]);
      assert (a + b)[..|a + b| - 1] == a + b[..n];
    }
  }

  /** Taking one seed out takes out just what that seed contributed. */
  lemma FoundRemove(s: Search, seeds: seq<Seed>, i: nat)
    requires i < |seeds|
    ensures multiset(Found(s, seeds)) ==
            multiset(Found(s, seeds[..i] + seeds[i + 1..])) + multiset(Found(s, [seeds[i]]))
  {
    var left, mid, right := seeds[..i], [seeds[i]], seeds[i + 1..];
    assert seeds == left + (mid + right);
    FoundConcat(s, left, mid + right);
    FoundConcat(s, mid, right);
    FoundConcat(s, left, right);
  }

  lemma RemoveBoth(a: seq<Seed>, b: seq<Seed>, i: nat)
    requires a != [] && i < |b| && b[i] == a[|a| - 1] && multiset(a) == multiset(b)
    ensures multiset(a[..|a| - 1]) == multiset(b[..i] + b[i + 1..])
  {
    var front, left, mid, right := a[..|a| - 1], b[..i], [b[i]], b[i + 1..];
    assert a == front + mid;
    assert b == left + (mid + right);
    assert multiset(front) + multiset(mid) == multiset(left + right) + multiset(mid);
    forall x ensures multiset(front)[x] == multiset(left + right)[x] {
      assert (multiset(front) + multiset(mid))[x] == (multiset(left + right) + multiset(mid))[x];
    }
  }

  /** What is found depends on the seeds as a collection only. */
  lemma {:induction false} FoundOfPermutation(s: Search, seeds: seq<Seed>, others: seq<Seed>)
    requires multiset(seeds) == multiset(others)
    ensures multiset(Found(s, seeds)) == multiset(Found(s, others))
    decreases |seeds|
  {
    if seeds == [] {
      assert |others| == |multiset(others)|;
    } else {
      var n := |seeds| - 1;
      assert seeds[n] in multiset(others);
      var i :| 0 <= i < |others| && others[i] == seeds[n];
      RemoveBoth(seeds, others, i);
      FoundOfPermutation(s, seeds[..n], others[..i] + others[i + 1..]);
      FoundRemove(s, seeds, n);
      assert seeds[..n] + seeds[n + 1..] == seeds[..n];
      FoundRemove(s, others, i);
    }
  }

  /** The ranking is a function of the providers, not of the order they come in. */
  lemma RankingIgnoresOrder(s: Search, seeds: seq<Seed>, others: seq<Seed>)
    requires StrictTotal(s.idBefore) && DistinctUsers(seeds) && multiset(seeds) == multiset(others)
    ensures Ranked(s, seeds) == Ranked(s, others)
  {
    var before := RankBefore(s.idBefore);
    var found := Found(s, seeds);
    CandidatesOrdered(s.idBefore);
    SortSorts(before, found);
    SortSorts(before, Found(s, others));
    FoundOfPermutation(s, seeds, others);
    forall x, y | x in Ranked(s, seeds) && y in Ranked(s, seeds) && x != y ensures before(x, y) || before(y, x) {
      RankedIsSorted(s, seeds, x);
      RankedIsSorted(s, seeds, y);
      var a :| a in seeds && CandidateOf(s, a) == Some(x);
      var b :| b in seeds && CandidateOf(s, b) == Some(y);
    }
    SortedIsUnique(before, Ranked(s, seeds), Ranked(s, others));
  }

  // ---------------------------------------------------------------- the loops

  method MatchOffers(s: Search, offers: seq<Offer>) returns (matches: seq<OfferMatch>)
    ensures matches == MatchedOffers(s, offers)
  {
    matches := [];
    for i := 0 to |offers|
      invariant matches == MatchedOffers(s, offers[..i])
    {
      assert offers[..i + 1][..i] == offers[..i];
      var offer := offers[i];
      var trades := ListOfferTrades(s.lower, s.registry, if offer.category.Some? then offer.category.value else "");
      var tier := TierOf(s.lower, s.registry, s.view, trades, offer.category);
      if tier.Some? {
        matches := matches + [OfferMatch(offer, tier.value, offer.distance)];
      }
    }
    assert offers[..|offers|] == offers;
  }

  method MatchProfile(s: Search, ids: seq<string>) returns (profile: Option<Profile>)
    ensures profile == ProfileOf(s, ids)
  {
    profile := None;
    for i := 0 to |ids|
      invariant profile == ProfileOf(s, ids[..i])
    {
      assert ids[..i + 1][..i] == ids[..i];
      var trade := TradeOf(s.lower, s.registry, ids[i]);
      if trade.Some? {
        var tier := TierOf(s.lower, s.registry, s.view, [trade.value], None);
        assert Elements([trade.value]) == {trade.value};
        if tier.Some? && (profile.None? || Rank(tier.value) < Rank(profile.value.tier)) {
          profile := Some(Profile(trade.value.name, tier.value));
        }
      }
    }
    assert ids[..|ids|] == ids;
  }

  method CandidatesFor(s: Search, seeds: seq<Seed>) returns (out: seq<Candidate>)
    ensures out == Ranked(s, seeds)
    ensures StrictTotal(s.idBefore) ==> forall i, j :: 0 <= i < j < |out| ==>
              InOrder(out[i].tier, out[i].distance, out[j].tier, out[j].distance)
  {
    out := [];
    for i := 0 to |seeds|
      invariant out == Found(s, seeds[..i])
    {
      assert seeds[..i + 1][..i] == seeds[..i];
      var seed := seeds[i];
      if s.author != Some(seed.userId) {
        var offers := MatchOffers(s, seed.offers);
        var profile := MatchProfile(s, seed.professionIds);
        offers := Sort(OfferBefore, offers);
        if offers != [] || profile.Some? {
          out := out + [Candidate(seed.userId, BestTier(offers, profile), NearestKnown(offers), offers, profile)];
        }
      }
    }
    assert seeds[..|seeds|] == seeds;
    out := Sort(RankBefore(s.idBefore), out);
    if StrictTotal(s.idBefore) {
      forall i, j | 0 <= i < j < |out| ensures InOrder(out[i].tier, out[i].distance, out[j].tier, out[j].distance) {
        RankedInOrder(s, seeds, i, j);
      }
    }
  }
}
